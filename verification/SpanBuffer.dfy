/** The in-memory trace buffer: a fixed array of spans whose slots own heap
    strings, and query results that own deep copies. */
module SpanBuffer {
  import opened Status

  /** A heap address; attributes point to a string block or nowhere. */
  type Addr = int
  const NULL: Addr := 0
  const MAX_SPANS: nat := 10000

  /** The fields a span holds in place, and its pointer. */
  datatype SpanInfo = SpanInfo(
    traceId: string, spanId: string, parentSpanId: string, name: string, kind: string,
    startNs: nat, endNs: nat, serviceName: string, status: string, attributeCount: nat)

  datatype Span = Span(info: SpanInfo, attributes: Addr)

  type Blocks = map<Addr, string>

  /** A span as a reader sees it: the attribute pointer replaced by its text. */
  datatype Seen = Seen(info: SpanInfo, text: Option<string>)

  ghost function View(s: Span, blocks: Blocks): Seen {
    Seen(s.info, if s.attributes in blocks then Some(blocks[s.attributes]) else None)
  }

  ghost function Views(spans: seq<Span>, blocks: Blocks): (v: seq<Seen>)
    ensures |v| == |spans|
  {
    seq(|spans|, i requires 0 <= i < |spans| => View(spans[i], blocks))
  }

  /** Who a block belongs to: a slot, a place in a result, or something outside,
      which is a caller or, after a flush, nobody. */
  datatype Owner = Slot(i: nat) | InResult(which: nat, i: nat) | Outside

  type Owners = map<Addr, Owner>
  type Results = map<nat, seq<Span>>

  ghost predicate Owns(slots: seq<Span>, results: Results, foreign: set<Addr>, who: Owner, p: Addr) {
    match who
    case Slot(i) => i < |slots| && slots[i].attributes == p
    case InResult(k, i) => k in results && i < |results[k]| && results[k][i].attributes == p
    case Outside => p in foreign
  }

  /** The books balance: the live blocks are exactly those the owners map names;
      each belongs to the one live slot, place in an outstanding result, or
      outside holder recorded there; and every pointer in a live slot or outstanding
      result is NULL or a live block recorded as belonging to just that place. */
  ghost predicate Books(blocks: Blocks, owners: Owners, slots: seq<Span>, results: Results, foreign: set<Addr>) {
    && NULL !in blocks
    && owners.Keys == blocks.Keys
    && (forall p :: p in owners ==> Owns(slots, results, foreign, owners[p], p))
    && (forall i :: 0 <= i < |slots| && slots[i].attributes != NULL ==>
          slots[i].attributes in owners && owners[slots[i].attributes] == Slot(i))
    && (forall k, i :: k in results && 0 <= i < |results[k]| && results[k][i].attributes != NULL ==>
          results[k][i].attributes in owners && owners[results[k][i].attributes] == InResult(k, i))
    && (forall p :: p in foreign ==> p in owners && owners[p] == Outside)
  }

  /** No block is shared: two places with the same pointer are the same place. */
  lemma NoSharing(blocks: Blocks, owners: Owners, slots: seq<Span>, results: Results, foreign: set<Addr>,
                  a: Owner, b: Owner, p: Addr)
    requires Books(blocks, owners, slots, results, foreign) && p != NULL
    requires Owns(slots, results, foreign, a, p) && Owns(slots, results, foreign, b, p)
    ensures a == b && p in blocks
  {
  }

  lemma AppendSlot(blocks: Blocks, owners: Owners, slots: seq<Span>, results: Results, foreign: set<Addr>,
                   s: Span, text: string)
    requires Books(blocks, owners, slots, results, foreign)
    requires s.attributes == NULL || s.attributes !in blocks
    ensures s.attributes == NULL ==> Books(blocks, owners, slots + [s], results, foreign)
    ensures s.attributes != NULL ==>
      Books(blocks[s.attributes := text], owners[s.attributes := Slot(|slots|)], slots + [s], results, foreign)
  {
  }

  /** free(slots[i].attributes) followed by storing NULL there. */
  lemma ClearSlot(blocks: Blocks, owners: Owners, slots: seq<Span>, results: Results, foreign: set<Addr>, i: nat)
    requires Books(blocks, owners, slots, results, foreign) && i < |slots|
    ensures slots[i].attributes == NULL || slots[i].attributes in blocks
    ensures Books(blocks - {slots[i].attributes}, owners - {slots[i].attributes},
                  slots[i := slots[i].(attributes := NULL)], results, foreign)
  {
  }

  lemma DropClearedSlots(blocks: Blocks, owners: Owners, slots: seq<Span>, results: Results,
                         foreign: set<Addr>, n: nat)
    requires Books(blocks, owners, slots, results, foreign) && n <= |slots|
    requires forall i :: n <= i < |slots| ==> slots[i].attributes == NULL
    ensures Books(blocks, owners, slots[..n], results, foreign)
  {
  }

  lemma OpenResult(blocks: Blocks, owners: Owners, slots: seq<Span>, results: Results, foreign: set<Addr>, k: nat)
    requires Books(blocks, owners, slots, results, foreign) && k !in results
    ensures Books(blocks, owners, slots, results[k := []], foreign)
  {
  }

  lemma AppendToResult(blocks: Blocks, owners: Owners, slots: seq<Span>, results: Results, foreign: set<Addr>,
                       k: nat, s: Span, text: string)
    requires Books(blocks, owners, slots, results, foreign) && k in results
    requires s.attributes == NULL || s.attributes !in blocks
    ensures s.attributes == NULL ==> Books(blocks, owners, slots, results[k := results[k] + [s]], foreign)
    ensures s.attributes != NULL ==>
      Books(blocks[s.attributes := text], owners[s.attributes := InResult(k, |results[k]|)], slots,
            results[k := results[k] + [s]], foreign)
  {
  }

  lemma ClearInResult(blocks: Blocks, owners: Owners, slots: seq<Span>, results: Results, foreign: set<Addr>,
                      k: nat, i: nat)
    requires Books(blocks, owners, slots, results, foreign) && k in results && i < |results[k]|
    ensures results[k][i].attributes == NULL || results[k][i].attributes in blocks
    ensures Books(blocks - {results[k][i].attributes}, owners - {results[k][i].attributes}, slots,
                  results[k := results[k][i := results[k][i].(attributes := NULL)]], foreign)
  {
  }

  lemma CloseClearedResult(blocks: Blocks, owners: Owners, slots: seq<Span>, results: Results,
                           foreign: set<Addr>, k: nat)
    requires Books(blocks, owners, slots, results, foreign) && k in results
    requires forall i :: 0 <= i < |results[k]| ==> results[k][i].attributes == NULL
    ensures Books(blocks, owners, slots, results - {k}, foreign)
  {
  }

  /** The blocks that came after `was` are those of the slots from base on. */
  ghost predicate Copies(was: Blocks, blocks: Blocks, owners: Owners, base: nat) {
    forall p :: p in blocks && p in owners ==> (p !in was <==> owners[p].Slot? && owners[p].i >= base)
  }

  /** Inside the fill: the slots from base on are deep copies of the input so far. */
  ghost predicate Filling(was: Blocks, blocks: Blocks, owners: Owners, slots: seq<Span>, results: Results,
                          foreign: set<Addr>, base: nat, spans: seq<Span>)
  {
    && base <= |slots| <= base + |spans|
    && Grows(was, blocks)
    && Books(blocks, owners, slots, results, foreign)
    && Copies(was, blocks, owners, base)
    && forall j :: base <= j < |slots| ==> View(slots[j], blocks) == View(spans[j - base], was)
  }

  lemma StartFilling(blocks: Blocks, owners: Owners, slots: seq<Span>, results: Results, foreign: set<Addr>,
                     base: nat, spans: seq<Span>)
    requires base == |slots| && Books(blocks, owners, slots, results, foreign)
    ensures Filling(blocks, blocks, owners, slots, results, foreign, base, spans)
  {
  }

  lemma FillOne(was: Blocks, before: Blocks, blocks: Blocks, owners: Owners, owners': Owners, slots: seq<Span>,
                s: Span, results: Results, foreign: set<Addr>, base: nat, spans: seq<Span>)
    requires Filling(was, before, owners, slots, results, foreign, base, spans) && |slots| < base + |spans|
    requires Readable(spans, was) && Grows(before, blocks)
    requires Books(blocks, owners', slots + [s], results, foreign)
    requires View(s, blocks) == View(spans[|slots| - base], before)
    requires forall p :: p in blocks ==>
      p in owners' && (if p in before then p in owners && owners'[p] == owners[p] else owners'[p] == Slot(|slots|))
    ensures Filling(was, blocks, owners', slots + [s], results, foreign, base, spans)
  {
  }

  lemma SlotOwner(blocks: Blocks, owners: Owners, slots: seq<Span>, results: Results, foreign: set<Addr>, i: nat)
    requires Books(blocks, owners, slots, results, foreign) && i < |slots|
    ensures NULL !in blocks && owners.Keys == blocks.Keys
    ensures slots[i].attributes != NULL ==> slots[i].attributes in owners && owners[slots[i].attributes] == Slot(i)
  {
  }

  /** Inside the rollback: the first j copies are freed and their slots cleared. */
  ghost predicate Undoing(was: Blocks, blocks: Blocks, owners: Owners, slots: seq<Span>, results: Results,
                          foreign: set<Addr>, base: nat, j: nat)
  {
    && base + j <= |slots|
    && Grows(was, blocks)
    && Books(blocks, owners, slots, results, foreign)
    && Copies(was, blocks, owners, base)
    && forall i :: base <= i < base + j ==> slots[i].attributes == NULL
  }

  lemma UndoOne(was: Blocks, blocks: Blocks, owners: Owners, slots: seq<Span>, results: Results,
                foreign: set<Addr>, base: nat, j: nat)
    requires Undoing(was, blocks, owners, slots, results, foreign, base, j) && base + j < |slots|
    ensures slots[base + j].attributes == NULL || slots[base + j].attributes in blocks
    ensures Undoing(was, blocks - {slots[base + j].attributes}, owners - {slots[base + j].attributes},
                    slots[base + j := slots[base + j].(attributes := NULL)], results, foreign, base, j + 1)
  {
    hide Books;
    ClearSlot(blocks, owners, slots, results, foreign, base + j);
    SlotOwner(blocks, owners, slots, results, foreign, base + j);
  }

  lemma UndoneAll(was: Blocks, blocks: Blocks, owners: Owners, slots: seq<Span>, results: Results,
                  foreign: set<Addr>, base: nat)
    requires base <= |slots| && Undoing(was, blocks, owners, slots, results, foreign, base, |slots| - base)
    ensures blocks == was && Books(blocks, owners, slots[..base], results, foreign)
  {
    DropClearedSlots(blocks, owners, slots, results, foreign, base);
    forall p | p in blocks
      ensures p in was
    {
      assert p in owners && Owns(slots, results, foreign, owners[p], p);
    }
    forall p | p in was
      ensures p in blocks && blocks[p] == was[p]
    {
    }
    assert blocks.Keys == was.Keys;
  }

  /** Every old block is still there with its text. */
  ghost predicate Grows(before: Blocks, after: Blocks) {
    forall p :: p in before ==> p in after && after[p] == before[p]
  }

  ghost predicate Readable(spans: seq<Span>, blocks: Blocks) {
    forall i :: 0 <= i < |spans| ==> spans[i].attributes == NULL || spans[i].attributes in blocks
  }

  /** Growing the heap changes nothing for readers of pointers that were good. */
  lemma ViewsStay(spans: seq<Span>, before: Blocks, after: Blocks)
    requires Grows(before, after) && NULL !in after && Readable(spans, before)
    ensures Views(spans, after) == Views(spans, before)
  {
  }

  lemma OneMoreView(spans: seq<Span>, s: Span, blocks: Blocks)
    ensures Views(spans + [s], blocks) == Views(spans, blocks) + [View(s, blocks)]
  {
  }

  lemma SlicesJoin<T>(a: array<T>, m: nat, n: nat)
    requires m <= n <= a.Length
    ensures a[..n] == a[..m] + a[m..n]
  {
  }

  lemma ViewsJoin(a: seq<Span>, b: seq<Span>, blocks: Blocks)
    ensures Views(a + b, blocks) == Views(a, blocks) + Views(b, blocks)
  {
  }

  // ---- Queries ------------------------------------------------------------

  datatype Query = ByTrace(id: string) | ByTime(start: nat, end: nat)

  predicate Matches(q: Query, s: SpanInfo) {
    match q
    case ByTrace(id) => s.traceId == id
    case ByTime(start, end) => s.startNs >= start && s.endNs <= end
  }

  ghost function Pick(q: Query, seen: seq<Seen>): seq<Seen> {
    if seen == [] then []
    else
      var n := |seen| - 1;
      Pick(q, seen[..n]) + (if Matches(q, seen[n].info) then [seen[n]] else [])
  }

  lemma PickNext(q: Query, seen: seq<Seen>, i: nat)
    requires i < |seen|
    ensures Pick(q, seen[..i + 1]) == Pick(q, seen[..i]) + if Matches(q, seen[i].info) then [seen[i]] else []
  {
    assert seen[..i + 1][..i] == seen[..i];
  }

  lemma {:induction false} PickOfPrefix(q: Query, seen: seq<Seen>, i: nat)
    requires i <= |seen|
    ensures |Pick(q, seen[..i])| <= |Pick(q, seen)|
  {
    if i == |seen| {
      assert seen[..i] == seen;
    } else {
      var n := |seen| - 1;
      assert seen[..n][..i] == seen[..i];
      PickOfPrefix(q, seen[..n], i);
    }
  }

  /** The places of the spans that the query is for, in order: those of the trace,
      or those that lie wholly within the time range. */
  ghost predicate Selects(q: Query, seen: seq<Seen>, places: seq<nat>) {
    && (forall j :: 0 <= j < |places| ==> places[j] < |seen|)
    && (forall j, k :: 0 <= j < k < |places| ==> places[j] < places[k])
    && match q
       case ByTrace(id) =>
         forall i :: 0 <= i < |seen| ==> (i in places <==> seen[i].info.traceId == id)
       case ByTime(start, end) =>
         forall i :: 0 <= i < |seen| ==> (i in places <==> start <= seen[i].info.startNs && seen[i].info.endNs <= end)
  }

  ghost function SeenAt(seen: seq<Seen>, places: seq<nat>): seq<Seen>
    requires forall j :: 0 <= j < |places| ==> places[j] < |seen|
  {
    seq(|places|, j requires 0 <= j < |places| => seen[places[j]])
  }

  /** The answer to a query: the selected spans, each once and in order. */
  ghost predicate IsAnswer(q: Query, seen: seq<Seen>, answer: seq<Seen>) {
    exists places :: Selects(q, seen, places) && answer == SeenAt(seen, places)
  }

  lemma {:induction false} PickSelects(q: Query, seen: seq<Seen>) returns (places: seq<nat>)
    ensures Selects(q, seen, places) && Pick(q, seen) == SeenAt(seen, places)
  {
    if seen == [] {
      places := [];
    } else {
      var n := |seen| - 1;
      var before := PickSelects(q, seen[..n]);
      places := before + if Matches(q, seen[n].info) then [n] else [];
      OneMorePlace(q, seen, before);
    }
  }

  lemma OneMorePlace(q: Query, seen: seq<Seen>, before: seq<nat>)
    requires seen != [] && Selects(q, seen[..|seen| - 1], before)
    ensures Selects(q, seen, before + if Matches(q, seen[|seen| - 1].info) then [|seen| - 1] else [])
  {
  }

  lemma PickAnswers(q: Query, seen: seq<Seen>)
    ensures IsAnswer(q, seen, Pick(q, seen))
    ensures Pick(q, seen) == [] <==> Selects(q, seen, [])
  {
    var places := PickSelects(q, seen);
    if places != [] {
      assert places[0] in places;
    }
  }

  /** Where a span to be written comes from: the caller's own memory, or a place
      in the result of a query that has not been freed. */
  datatype Source = Own(span: Span) | FromResult(which: nat, at: nat)

  predicate Outstanding(source: Source, results: Results) {
    source.FromResult? ==> source.which in results && source.at < |results[source.which]|
  }

  function SpanOf(source: Source, results: Results): Span
    requires Outstanding(source, results)
  {
    match source
    case Own(span) => span
    case FromResult(k, i) => results[k][i]
  }

  datatype Op =
    | Write(source: Source)
    | WriteBatch(sources: seq<Source>)
    | Collect(query: Query)
    | FreeResult(which: nat)
    | Flush
    | Start
    | Stop

  /** One of the requests from a on, before b, failed. */
  ghost predicate Denied(works: nat -> bool, a: nat, b: nat) {
    exists i :: a <= i < b && !works(i)
  }

  lemma DeniedWithin(works: nat -> bool, a: nat, b: nat, c: nat, d: nat)
    requires a <= b <= c <= d && Denied(works, b, c)
    ensures Denied(works, a, d)
  {
  }

  class Trace {
    const works: nat -> bool           // whether the nth allocation or fopen goes well
    var asked: nat                     // how many there were
    var initialized: bool
    var slots: array?<Span>
    var count: nat
    var blocks: Blocks                 // the live heap strings
    var results: Results               // query results the callers still hold
    var nextResult: nat
    ghost var owners: Owners
    var arrays: set<nat>               // the live result arrays
    ghost var outside: set<Addr>       // the callers' blocks and those a flush forgot
    ghost const callers: Blocks

    ghost predicate Shape()
      reads this, slots
    {
      && (initialized <==> slots != null)
      && (slots != null ==> slots.Length == MAX_SPANS && count <= MAX_SPANS)
      && (slots == null ==> count == 0)
      && (forall k :: k in results ==> k < nextResult)
    }

    ghost function Live(): seq<Span>
      reads this, slots
      requires Shape()
    {
      if slots == null then [] else slots[..count]
    }

    ghost predicate Valid()
      reads this, slots
    {
      Shape() && Books(blocks, owners, Live(), results, outside) && arrays == results.Keys
    }

    /** Nothing has touched the callers' own blocks. */
    ghost predicate Sound()
      reads this, slots
    {
      Valid() && callers.Keys <= outside && Grows(callers, blocks)
    }

    /** The buffer as readers see it. */
    ghost function Contents(): seq<Seen>
      reads this, slots
      requires Shape()
    {
      Views(Live(), blocks)
    }

    constructor (callers: Blocks, works: nat -> bool)
      requires NULL !in callers
      ensures Sound() && blocks == callers == this.callers && !initialized && results == map[]
    {
      this.works, asked, initialized, slots, count := works, 0, false, null, 0;
      blocks, results, nextResult, arrays := callers, map[], 0, {};
      this.callers, outside := callers, callers.Keys;
      owners := map p | p in callers :: Owner.Outside;
    }

    // ---- The heap ---------------------------------------------------------

    method Ask() returns (ok: bool)
      modifies this`asked
      ensures asked == old(asked) + 1 && (ok <==> works(old(asked)))
      ensures ok || Denied(works, old(asked), asked)
    {
      ok := works(asked);
      asked := asked + 1;
    }

    /** Some address that is not in use. */
    method Unused() returns (q: Addr)
      ensures q != NULL && q !in blocks
    {
      q := *;
      if q == NULL || q in blocks {
        q := 1;
        ghost var passed: set<Addr> := {};
        while q in blocks
          invariant q >= 1 && passed <= blocks.Keys && forall p :: p in passed ==> p < q
          decreases |blocks.Keys - passed|
        {
          passed := passed + {q};
          q := q + 1;
        }
      }
    }

    /** strdup: a block that was not live, with the same text, or NULL. */
    method Strdup(p: Addr) returns (q: Addr)
      requires p in blocks && NULL !in blocks
      modifies this`asked, this`blocks
      ensures q == NULL ==> blocks == old(blocks)
      ensures q != NULL ==> q !in old(blocks) && blocks == old(blocks)[q := old(blocks[p])]
      ensures asked >= old(asked) && (q == NULL ==> Denied(works, old(asked), asked))
    {
      var ok := Ask();
      if !ok {
        return NULL;
      }
      q := Unused();
      blocks := blocks[q := blocks[p]];
    }

    /** free: the block must be live; freeing NULL does nothing. */
    method Free(p: Addr)
      requires p == NULL || p in blocks
      modifies this`blocks
      ensures blocks == old(blocks) - {p}
    {
      blocks := blocks - {p};
    }

    // ---- Lifecycle --------------------------------------------------------

    method Init() returns (status: Status)
      requires Valid()
      modifies this`asked, this`initialized, this`slots, this`count
      ensures Valid()
      ensures status == Success <==> initialized
      ensures old(initialized) ==> status == Success && slots == old(slots) && count == old(count)
      ensures !old(initialized) && status == Success ==> fresh(slots) && count == 0
      ensures status == Success || (status == OutOfMemory && slots == null)
      ensures Live() == old(Live())
      ensures asked >= old(asked) && (status != Success ==> Denied(works, old(asked), asked))
    {
      if initialized {
        return Success;
      }
      var calloc := Ask();
      if !calloc {
        return OutOfMemory;
      }
      slots := new Span[MAX_SPANS];
      count := 0;
      initialized := true;
      assert Live() == [];
      return Success;
    }

    method Shutdown()
      requires Valid()
      modifies this`initialized, this`slots, this`count, this`blocks, this`owners, slots
      ensures Valid() && !initialized
      ensures Grows(blocks, old(blocks))
    {
      if !initialized {
        return;
      }
      var i := 0;
      while i < count
        invariant i <= count && slots == old(slots) && count == old(count)
        invariant Valid() && initialized
        invariant forall j :: 0 <= j < i ==> slots[j].attributes == NULL
        invariant Grows(blocks, old(blocks))
      {
        ghost var live := Live();
        FreeSlot(i);
        assert forall j :: 0 <= j < count ==> slots[j] == Live()[j];
        i := i + 1;
      }
      DropClearedSlots(blocks, owners, slots[..count], results, outside, 0);
      assert slots[..count][..0] == [];
      slots := null;
      count := 0;
      initialized := false;
    }

    /** One live slot: its block goes and its pointer becomes NULL. */
    method FreeSlot(i: nat)
      requires Valid() && initialized && i < count
      modifies this`blocks, this`owners, slots
      ensures Valid() && Grows(blocks, old(blocks))
      ensures Live() == old(Live())[i := old(slots[i]).(attributes := NULL)]
    {
      ghost var live, p := slots[..count], slots[i].attributes;
      ClearSlot(blocks, owners, live, results, outside, i);
      Free(slots[i].attributes);
      owners := owners - {p};
      slots[i] := slots[i].(attributes := NULL);
      assert slots[..count] == live[i := live[i].(attributes := NULL)];
    }

    // ---- Writing ----------------------------------------------------------

    method WriteSpan(span: Span) returns (status: Status)
      requires Valid() && Readable([span], blocks)
      modifies this`asked, this`blocks, this`count, this`owners, slots
      ensures Valid() && Grows(old(blocks), blocks)
      ensures !initialized ==> status == NotInitialized
      ensures initialized && (span.info.spanId == "" || span.info.traceId == "") ==> status == InvalidParam
      ensures initialized && span.info.spanId != "" && span.info.traceId != "" && old(count) == MAX_SPANS ==>
        status == OutOfMemory
      ensures initialized && span.info.spanId != "" && span.info.traceId != "" ==>
        status == Success || status == OutOfMemory
      ensures count == if status == Success then old(count) + 1 else old(count)
      ensures status == Success ==> Contents() == old(Contents()) + [View(span, old(blocks))]
      ensures status != Success ==> Live() == old(Live()) && blocks == old(blocks)
      ensures status != Success ==> Contents() == old(Contents())
      ensures asked >= old(asked)
      ensures status == OutOfMemory && old(count) < MAX_SPANS ==> Denied(works, old(asked), asked)
    {
      if !initialized {
        return NotInitialized;
      }
      if span.info.spanId == "" || span.info.traceId == "" {
        return InvalidParam;
      }
      if count >= MAX_SPANS {
        return OutOfMemory;
      }
      status := AppendSpan(span);
    }

    method AppendSpan(span: Span) returns (status: Status)
      requires Valid() && initialized && count < MAX_SPANS && Readable([span], blocks)
      modifies this`asked, this`blocks, this`count, this`owners, slots
      ensures Valid() && Grows(old(blocks), blocks)
      ensures status == Success || status == OutOfMemory
      ensures count == if status == Success then old(count) + 1 else old(count)
      ensures status == Success ==> Contents() == old(Contents()) + [View(span, old(blocks))]
      ensures status != Success ==> Live() == old(Live()) && blocks == old(blocks)
      ensures asked >= old(asked) && (status != Success ==> Denied(works, old(asked), asked))
    {
      assert [span][0] == span;
      hide Books, Readable, Grows, Views, View;
      ghost var live, was := slots[..count], blocks;
      AllReadable(blocks, owners, live, results, outside);
      slots[count] := span;
      assert slots[..count] == live;
      var ok := CopyAttribute(count);
      if !ok {
        return OutOfMemory;
      }
      AllReadable(blocks, owners, slots[..count + 1], results, outside);
      ViewsStay(live, was, blocks);
      count := count + 1;
      assert slots[..count] == live + [slots[count - 1]];
      OneMoreView(live, slots[count - 1], blocks);
      return Success;
    }

    /** Replaces the pointer that came with the copied span by a copy of its text;
        on failure it leaves NULL there. */
    method CopyAttribute(at: nat) returns (ok: bool)
      requires slots != null && at < slots.Length
      requires Books(blocks, owners, slots[..at], results, outside)
      requires slots[at].attributes == NULL || slots[at].attributes in blocks
      modifies this`asked, this`blocks, this`owners, slots
      ensures slots[..at] == old(slots[..at])
      ensures forall j :: at < j < slots.Length ==> slots[j] == old(slots[j])
      ensures Grows(old(blocks), blocks)
      ensures ok ==> Books(blocks, owners, slots[..at + 1], results, outside)
      ensures ok ==> (slots[at].attributes == NULL || slots[at].attributes in blocks) &&
                     View(slots[at], blocks) == View(old(slots[at]), old(blocks))
      ensures ok ==> forall p :: p in blocks ==>
        owners[p] == if p in old(blocks) then old(owners[p]) else Slot(at)
      ensures !ok ==> blocks == old(blocks) && owners == old(owners)
      ensures asked >= old(asked) && (!ok ==> Denied(works, old(asked), asked))
    {
      ghost var live, was := slots[..at], blocks;
      if slots[at].attributes == NULL {
        AppendSlot(was, owners, live, results, outside, slots[at], "");
      } else {
        var source := slots[at].attributes;
        var q := Strdup(source);
        slots[at] := slots[at].(attributes := q);
        if q == NULL {
          return false;
        }
        AppendSlot(was, owners, live, results, outside, slots[at], was[source]);
        owners := owners[q := Slot(at)];
      }
      assert slots[..at + 1] == live + [slots[at]];
      return true;
    }

    /** All of the batch or nothing of it. */
    method WriteBatch(spans: seq<Span>) returns (status: Status)
      requires Valid() && Readable(spans, blocks)
      modifies this`asked, this`blocks, this`count, this`owners, slots
      ensures Valid() && Grows(old(blocks), blocks)
      ensures !initialized ==> status == NotInitialized
      ensures initialized && spans == [] ==> status == InvalidParam
      ensures initialized && spans != [] ==> status == Success || status == OutOfMemory
      ensures old(count) + |spans| > MAX_SPANS ==> status != Success
      ensures status == Success ==> Contents() == old(Contents()) + Views(spans, old(blocks))
      ensures status != Success ==> Live() == old(Live()) && blocks == old(blocks)
      ensures status != Success ==> Contents() == old(Contents())
      ensures asked >= old(asked)
      ensures status == OutOfMemory && old(count) + |spans| <= MAX_SPANS ==> Denied(works, old(asked), asked)
    {
      if !initialized {
        return NotInitialized;
      }
      if spans == [] {
        return InvalidParam;
      }
      if count + |spans| > MAX_SPANS {
        return OutOfMemory;
      }
      status := AppendBatch(spans);
    }

    method AppendBatch(spans: seq<Span>) returns (status: Status)
      requires Valid() && initialized && count + |spans| <= MAX_SPANS && Readable(spans, blocks)
      modifies this`asked, this`blocks, this`count, this`owners, slots
      ensures Valid() && Grows(old(blocks), blocks)
      ensures status == Success || status == OutOfMemory
      ensures status == Success ==> Contents() == old(Contents()) + Views(spans, old(blocks))
      ensures status != Success ==> Live() == old(Live()) && blocks == old(blocks)
      ensures asked >= old(asked) && (status != Success ==> Denied(works, old(asked), asked))
    {
      ghost var live, was := slots[..count], blocks;
      var base := count;
      hide Books, Readable, Grows, Views, View;
      AllReadable(blocks, owners, live, results, outside);
      var ok := FillSlots(spans, base);
      if !ok {
        return OutOfMemory;
      }
      AllReadable(blocks, owners, slots[..base + |spans|], results, outside);
      ViewsStay(live, was, blocks);
      count := count + |spans|;
      SlicesJoin(slots, base, count);
      ViewsJoin(live, slots[base..count], blocks);
      return Success;
    }

    /** The spans, then deep copies of their attributes. */
    method FillSlots(spans: seq<Span>, base: nat) returns (ok: bool)
      requires slots != null && base + |spans| <= slots.Length && Readable(spans, blocks)
      requires Books(blocks, owners, slots[..base], results, outside)
      modifies this`asked, this`blocks, this`owners, slots
      ensures Grows(old(blocks), blocks) && slots[..base] == old(slots[..base])
      ensures ok ==> Books(blocks, owners, slots[..base + |spans|], results, outside)
      ensures ok ==> Views(slots[base..base + |spans|], blocks) == Views(spans, old(blocks))
      ensures !ok ==> blocks == old(blocks) && Books(blocks, owners, slots[..base], results, outside)
      ensures asked >= old(asked) && (!ok ==> Denied(works, old(asked), asked))
    {
      hide Books, Readable, Grows, Views;
      CopySpans(spans, base);
      ok := CopyAttributes(spans, base);
    }

    /** memcpy of the spans, pointers and all. */
    method CopySpans(spans: seq<Span>, base: nat)
      requires slots != null && base + |spans| <= slots.Length
      modifies slots
      ensures slots[..base] == old(slots[..base])
      ensures forall j :: 0 <= j < |spans| ==> slots[base + j] == spans[j]
    {
      forall j | base <= j < base + |spans| {
        slots[j] := spans[j - base];
      }
    }

    /** The fill loop of the batch: slot by slot a deep copy of the attributes,
        and on the first failure every copy made so far is freed again. */
    method CopyAttributes(spans: seq<Span>, base: nat) returns (ok: bool)
      requires slots != null && base + |spans| <= slots.Length && Readable(spans, blocks)
      requires Books(blocks, owners, slots[..base], results, outside)
      requires forall j :: 0 <= j < |spans| ==> slots[base + j] == spans[j]
      modifies this`asked, this`blocks, this`owners, slots
      ensures Grows(old(blocks), blocks) && slots[..base] == old(slots[..base])
      ensures ok ==> Books(blocks, owners, slots[..base + |spans|], results, outside)
      ensures ok ==> Views(slots[base..base + |spans|], blocks) == Views(spans, old(blocks))
      ensures !ok ==> blocks == old(blocks) && Books(blocks, owners, slots[..base], results, outside)
      ensures asked >= old(asked) && (!ok ==> Denied(works, old(asked), asked))
    {
      ghost var was, kept := blocks, slots[..base];
      var i := 0;
      assert slots[..base + 0] == kept;
      hide Filling, Books, Views, View, Readable, Grows, Denied;
      StartFilling(blocks, owners, kept, results, outside, base, spans);
      while i < |spans|
        invariant i <= |spans| && slots == old(slots)
        invariant Filling(was, blocks, owners, slots[..base + i], results, outside, base, spans)
        invariant slots[..base] == kept && asked >= old(asked)
        invariant forall j :: i <= j < |spans| ==> slots[base + j] == spans[j]
      {
        ghost var from := asked;
        ok := FillNext(spans, base, i, was);
        if !ok {
          DeniedWithin(works, old(asked), from, asked, asked);
          return;
        }
        i := i + 1;
      }
      Filled(spans, base, was);
      return true;
    }

    lemma Filled(spans: seq<Span>, base: nat, was: Blocks)
      requires slots != null && base + |spans| <= slots.Length
      requires Filling(was, blocks, owners, slots[..base + |spans|], results, outside, base, spans)
      ensures Grows(was, blocks) && Books(blocks, owners, slots[..base + |spans|], results, outside)
      ensures Views(slots[base..base + |spans|], blocks) == Views(spans, was)
    {
    }

    /** One slot, or the way back. */
    method FillNext(spans: seq<Span>, base: nat, i: nat, ghost was: Blocks) returns (ok: bool)
      requires slots != null && i < |spans| && base + |spans| <= slots.Length && Readable(spans, was)
      requires Filling(was, blocks, owners, slots[..base + i], results, outside, base, spans)
      requires forall j :: i <= j < |spans| ==> slots[base + j] == spans[j]
      modifies this`asked, this`blocks, this`owners, slots
      ensures slots[..base] == old(slots[..base])
      ensures ok ==> Filling(was, blocks, owners, slots[..base + i + 1], results, outside, base, spans)
      ensures ok ==> forall j :: i < j < |spans| ==> slots[base + j] == spans[j]
      ensures !ok ==> blocks == was && Books(blocks, owners, slots[..base], results, outside)
      ensures asked >= old(asked) && (!ok ==> Denied(works, old(asked), asked))
    {
      hide Filling, Books, Readable, Denied;
      ok := CopyNext(spans, base, i, was);
      if !ok {
        Rollback(spans, base, i, was);
      }
    }

    method CopyNext(spans: seq<Span>, base: nat, i: nat, ghost was: Blocks) returns (ok: bool)
      requires slots != null && i < |spans| && base + |spans| <= slots.Length && Readable(spans, was)
      requires Filling(was, blocks, owners, slots[..base + i], results, outside, base, spans)
      requires forall j :: i <= j < |spans| ==> slots[base + j] == spans[j]
      modifies this`asked, this`blocks, this`owners, slots
      ensures slots[..base] == old(slots[..base])
      ensures forall j :: i < j < |spans| ==> slots[base + j] == spans[j]
      ensures ok ==> Filling(was, blocks, owners, slots[..base + i + 1], results, outside, base, spans)
      ensures !ok ==> Filling(was, blocks, owners, slots[..base + i], results, outside, base, spans)
      ensures asked >= old(asked) && (!ok ==> Denied(works, old(asked), asked))
    {
      ghost var live, now, whose := slots[..base + i], blocks, owners;
      assert slots[base + i] == spans[i];
      ok := CopyAttribute(base + i);
      assert slots[..base] == live[..base];
      if ok {
        assert slots[..base + i + 1] == live + [slots[base + i]];
        FillOne(was, now, blocks, whose, owners, live, slots[base + i], results, outside, base, spans);
      }
    }

    /** Frees the copies in slots base .. base + n. */
    method Rollback(ghost spans: seq<Span>, base: nat, n: nat, ghost was: Blocks)
      requires slots != null && base + n <= slots.Length
      requires Filling(was, blocks, owners, slots[..base + n], results, outside, base, spans)
      modifies this`blocks, this`owners, slots
      ensures blocks == was && slots[..base] == old(slots[..base])
      ensures Books(blocks, owners, slots[..base], results, outside)
    {
      ghost var kept := slots[..base];
      var j := 0;
      assert slots[..base + n][..base] == kept;
      while j < n
        invariant j <= n && slots == old(slots) && slots[..base + n][..base] == kept
        invariant Undoing(was, blocks, owners, slots[..base + n], results, outside, base, j)
      {
        ghost var live, p := slots[..base + n], slots[base + j].attributes;
        UndoOne(was, blocks, owners, live, results, outside, base, j);
        Free(slots[base + j].attributes);
        owners := owners - {p};
        slots[base + j] := slots[base + j].(attributes := NULL);
        assert slots[..base + n] == live[base + j := live[base + j].(attributes := NULL)];
        j := j + 1;
      }
      UndoneAll(was, blocks, owners, slots[..base + n], results, outside, base);
      assert slots[..base + n][..base] == slots[..base];
    }

    /** write_span on each: when every id is there and nothing fails, the buffer
        ends as after one batch write. */
    method WriteEach(spans: seq<Span>) returns (status: Status)
      requires Valid() && initialized && Readable(spans, blocks)
      requires forall i :: 0 <= i < |spans| ==> spans[i].info.spanId != "" && spans[i].info.traceId != ""
      modifies this`asked, this`blocks, this`count, this`owners, slots
      ensures Valid() && Grows(old(blocks), blocks)
      ensures status == Success ==> Contents() == old(Contents()) + Views(spans, old(blocks))
      ensures asked >= old(asked)
      ensures status != Success ==> old(count) + |spans| > MAX_SPANS || Denied(works, old(asked), asked)
    {
      ghost var was, seen := blocks, Contents();
      var i := 0;
      assert spans[..0] == [] && Views([], was) == [];
      hide Valid, Books, Live, Contents, Readable, Views, View, Grows;
      GrowsNot(was);
      while i < |spans|
        invariant i <= |spans| && Valid() && slots == old(slots) && initialized && Grows(was, blocks)
        invariant Contents() == seen + Views(spans[..i], was)
        invariant asked >= old(asked) && count == old(count) + i
      {
        ghost var now := blocks;
        NextView(spans, i, was);
        status := WriteSpan(spans[i]);
        if status != Success {
          return;
        }
        GrowsOn(was, now, blocks);
        i := i + 1;
      }
      assert spans[..i] == spans;
      return Success;
    }

    lemma NextView(spans: seq<Span>, i: nat, was: Blocks)
      requires Valid() && i < |spans| && Readable(spans, was) && Grows(was, blocks)
      ensures Readable([spans[i]], blocks)
      ensures Views(spans[..i + 1], was) == Views(spans[..i], was) + [View(spans[i], blocks)]
    {
      assert [spans[i]][0] == spans[i];
      assert View(spans[i], blocks) == View(spans[i], was);
    }

    // ---- Reading ----------------------------------------------------------

    /** Counts the matches, allocates, then fills with deep copies; any failed
        allocation frees what was copied. */
    method Collect(q: Query) returns (status: Status, which: nat)
      requires Valid()
      modifies this`asked, this`blocks, this`owners, this`results, this`nextResult, this`arrays
      ensures Valid() && Contents() == old(Contents()) && Grows(old(blocks), blocks)
      ensures status == NotInitialized <==> !initialized
      ensures initialized ==> status == Success || status == NotFound || status == OutOfMemory
      ensures initialized ==> (status == NotFound <==> Selects(q, old(Contents()), []))
      ensures status == Success ==>
        which !in old(results) && which in results && results == old(results)[which := results[which]] &&
        IsAnswer(q, old(Contents()), Views(results[which], blocks))
      ensures status != Success ==> results == old(results) && blocks == old(blocks)
      ensures asked >= old(asked) && (status == OutOfMemory ==> Denied(works, old(asked), asked))
    {
      hide Selects, IsAnswer, Pick, Views, Books, Grows;
      which := nextResult;
      PickAnswers(q, Contents());
      GrowsNot(blocks);
      if !initialized {
        return NotInitialized, which;
      }
      var matches := CountMatches(q);
      if matches == 0 {
        return NotFound, which;
      }
      var malloc := Ask();
      if !malloc {
        return OutOfMemory, which;
      }
      var result := new Span[matches];
      arrays := arrays + {which};
      var ok := Gather(q, result);
      if !ok {
        arrays := arrays - {which};
        return OutOfMemory, which;
      }
      HandOut(result[..]);
      return Success, which;
    }

    /** The filled array becomes a result of its own. */
    method HandOut(spans: seq<Span>)
      requires Shape() && Books(blocks, owners, Live(), results[nextResult := spans], outside)
      requires arrays == results.Keys + {nextResult}
      modifies this`results, this`nextResult
      ensures Valid() && results == old(results)[old(nextResult) := spans]
    {
      results := results[nextResult := spans];
      nextResult := nextResult + 1;
    }

    method CountMatches(q: Query) returns (n: nat)
      requires Shape() && initialized
      ensures n == |Pick(q, Contents())|
      ensures exists places :: Selects(q, Contents(), places) && n == |places|
    {
      n := 0;
      ghost var seen := Contents();
      ghost var places := PickSelects(q, seen);
      for i := 0 to count
        invariant n == |Pick(q, seen[..i])|
      {
        assert seen[..i + 1][..i] == seen[..i];
        if Matches(q, slots[i].info) {
          n := n + 1;
        }
      }
      assert seen[..count] == seen;
    }

    /** The second pass after n spans: the first idx places hold the copies. */
    ghost predicate Copied(q: Query, result: array<Span>, idx: nat, n: nat, was: Blocks, seen: seq<Seen>)
      reads this, slots, result
    {
      && Shape() && n <= |seen| && idx == |Pick(q, seen[..n])| && idx <= result.Length
      && Gathering(was, blocks, owners, Live(), results, outside, nextResult, result[..idx])
      && Views(result[..idx], blocks) == Pick(q, seen[..n])
    }

    /** The second pass; the array is exactly as long as the first pass counted. */
    method Gather(q: Query, result: array<Span>) returns (ok: bool)
      requires Shape() && Books(blocks, owners, Live(), results, outside)
      requires initialized && result != slots && nextResult !in results
      requires result.Length == |Pick(q, Contents())|
      modifies this`asked, this`blocks, this`owners, result
      ensures Grows(old(blocks), blocks) && Contents() == old(Contents())
      ensures ok ==> Books(blocks, owners, Live(), results[nextResult := result[..]], outside)
      ensures ok ==> Views(result[..], blocks) == Pick(q, old(Contents()))
      ensures !ok ==> blocks == old(blocks) && Books(blocks, owners, Live(), results, outside)
      ensures asked >= old(asked) && (!ok ==> Denied(works, old(asked), asked))
    {
      ghost var was, live, seen := blocks, Live(), Contents();
      var idx, i := 0, 0;
      StartGathering(was, owners, live, results, outside, nextResult);
      assert result[..0] == [] && Pick(q, seen[..0]) == [] && Views([], blocks) == [];
      assert Readable(live, was) && Copied(q, result, 0, 0, was, seen);
      hide Copied, Pick, Gathering, Views, View, Books, Readable, Grows;
      while i < count
        invariant i <= count && Copied(q, result, idx, i, was, seen) && asked >= old(asked)
      {
        ok, idx := GatherNext(q, result, idx, i, was, seen);
        if !ok {
          GrowsNot(was);
          return false;
        }
        i := i + 1;
      }
      AllCopied(q, result, idx, was, seen);
      return true;
    }

    lemma GrowsNot(was: Blocks)
      ensures Grows(was, was)
    {
    }

    lemma AllCopied(q: Query, result: array<Span>, idx: nat, was: Blocks, seen: seq<Seen>)
      requires Shape() && seen == Views(Live(), was) && Readable(Live(), was)
      requires Copied(q, result, idx, |seen|, was, seen) && result.Length == |Pick(q, seen)|
      ensures Grows(was, blocks) && Contents() == seen
      ensures Books(blocks, owners, Live(), results[nextResult := result[..]], outside)
      ensures Views(result[..], blocks) == Pick(q, seen)
    {
      assert seen[..|seen|] == seen && result[..idx] == result[..];
      hide Pick, Views;
      EndGathering(was, blocks, owners, Live(), results, outside, nextResult, result[..]);
      ViewsStay(Live(), was, blocks);
    }

    lemma SlotIsSeen(i: nat, was: Blocks)
      requires Shape() && i < count && Readable(Live(), was)
      ensures Views(Live(), was)[i] == View(slots[i], was) && Readable([slots[i]], was)
      ensures View(slots[i], was).info == slots[i].info
    {
      assert Live()[i] == slots[i];
    }

    /** One span of the second pass: copied if it matches; a failed allocation
        ends the pass and frees the copies. */
    method GatherNext(q: Query, result: array<Span>, idx: nat, i: nat, ghost was: Blocks, ghost seen: seq<Seen>)
      returns (ok: bool, next: nat)
      requires Shape() && initialized && result != slots && i < count
      requires seen == Views(Live(), was) && Readable(Live(), was) && result.Length == |Pick(q, seen)|
      requires Copied(q, result, idx, i, was, seen)
      modifies this`asked, this`blocks, this`owners, result
      ensures ok ==> Copied(q, result, next, i + 1, was, seen)
      ensures !ok ==> blocks == was && Books(blocks, owners, Live(), results, outside)
      ensures asked >= old(asked) && (!ok ==> Denied(works, old(asked), asked))
    {
      hide Pick, Views, Books, Gathering, Readable, View, Grows;
      PickNext(q, seen, i);
      PickOfPrefix(q, seen, i + 1);
      SlotIsSeen(i, was);
      if !Matches(q, slots[i].info) {
        return true, idx;
      }
      ok := GatherOne(result, idx, slots[i], was);
      if !ok {
        DropGathered(result, idx, was);
      }
      next := idx + 1;
    }

    method GatherOne(result: array<Span>, idx: nat, source: Span, ghost was: Blocks) returns (ok: bool)
      requires Shape() && result != slots && idx < result.Length && Readable([source], was)
      requires Gathering(was, blocks, owners, Live(), results, outside, nextResult, result[..idx])
      modifies this`asked, this`blocks, this`owners, result
      ensures result[..idx] == old(result[..idx])
      ensures ok ==> Gathering(was, blocks, owners, Live(), results, outside, nextResult, result[..idx + 1])
      ensures ok ==> Views(result[..idx + 1], blocks) == old(Views(result[..idx], blocks)) + [View(source, was)]
      ensures !ok ==> Gathering(was, blocks, owners, Live(), results, outside, nextResult, result[..idx])
      ensures asked >= old(asked) && (!ok ==> Denied(works, old(asked), asked))
    {
      ghost var done, now, whose, live := result[..idx], blocks, owners, Live();
      assert [source][0] == source;
      result[idx] := source.(attributes := NULL);
      if source.attributes != NULL {
        var p := Strdup(source.attributes);
        result[idx] := result[idx].(attributes := p);
        assert result[..idx] == done;
        if p == NULL {
          return false;
        }
        owners := owners[p := InResult(nextResult, idx)];
      }
      assert result[..idx + 1] == done + [result[idx]];
      GatheredOne(was, now, blocks, whose, owners, live, results, outside, nextResult, done, source, result[idx]);
      return true;
    }

    /** Frees the copies made so far; the caller then frees the array. */
    method DropGathered(result: array<Span>, n: nat, ghost was: Blocks)
      requires Shape() && n <= result.Length
      requires Gathering(was, blocks, owners, Live(), results, outside, nextResult, result[..n])
      modifies this`blocks, this`owners
      ensures blocks == was && Books(blocks, owners, Live(), results, outside)
    {
      ghost var left := result[..n];
      var j := 0;
      while j < n
        invariant j <= n && |left| == n
        invariant forall i :: j <= i < n ==> left[i] == result[i]
        invariant Gathering(was, blocks, owners, Live(), results, outside, nextResult, left)
        invariant forall i :: 0 <= i < j ==> left[i].attributes == NULL
      {
        DropOne(was, blocks, owners, Live(), results, outside, nextResult, left, j);
        Free(result[j].attributes);
        owners := owners - {result[j].attributes};
        left := left[j := left[j].(attributes := NULL)];
        j := j + 1;
      }
      DroppedAll(was, blocks, owners, Live(), results, outside, nextResult, left);
    }

    /** heapstore_trace_free_spans on an outstanding result. */
    method FreeSpans(which: nat)
      requires Valid() && which in results
      modifies this`blocks, this`owners, this`results, this`arrays
      ensures Valid() && Contents() == old(Contents()) && Grows(blocks, old(blocks))
      ensures results == old(results) - {which}
    {
      ghost var live := Live();
      var i := 0;
      while i < |results[which]|
        invariant which in results && i <= |results[which]| && Valid() && Live() == live
        invariant results - {which} == old(results) - {which} && results.Keys == old(results.Keys)
        invariant |results[which]| == |old(results[which])|
        invariant forall j :: 0 <= j < i ==> results[which][j].attributes == NULL
        invariant Grows(blocks, old(blocks))
      {
        FreeAttribute(which, i);
        i := i + 1;
      }
      CloseClearedResult(blocks, owners, live, results, outside, which);
      results := results - {which};
      arrays := arrays - {which};
      ViewsStay(live, blocks, old(blocks));
    }

    /** One span of a result: its block goes and its pointer becomes NULL. */
    method FreeAttribute(which: nat, i: nat)
      requires Valid() && which in results && i < |results[which]|
      modifies this`blocks, this`owners, this`results
      ensures Valid() && Grows(blocks, old(blocks))
      ensures results == old(results)[which := old(results[which])[i := old(results[which][i]).(attributes := NULL)]]
    {
      var spans := results[which];
      ClearInResult(blocks, owners, Live(), results, outside, which, i);
      Free(spans[i].attributes);
      owners := owners - {spans[i].attributes};
      results := results[which := spans[i := spans[i].(attributes := NULL)]];
    }

    /** heapstore_trace_flush: nothing to do for an empty buffer, otherwise the spans
        go into a file and the buffer is reset. */
    method Flush() returns (status: Status)
      requires Valid()
      modifies this`asked, this`count, this`outside, this`owners
      ensures Valid()
      ensures status == NotInitialized <==> !initialized
      ensures initialized ==> status == Success || status == FileOpenFailed
      ensures initialized && old(count) == 0 ==> status == Success
      ensures status == Success ==> Contents() == [] && outside == old(outside) + Attributes(old(Live()))
      ensures status != Success ==> Contents() == old(Contents()) && outside == old(outside)
      ensures asked >= old(asked) && (status == FileOpenFailed ==> Denied(works, old(asked), asked))
    {
      if !initialized {
        return NotInitialized;
      }
      if count == 0 {
        assert Live() == [] && Attributes(Live()) == {};
        return Success;
      }
      var fopen := Ask();
      if !fopen {
        return FileOpenFailed;
      }
      ResetAfterFlush();
      return Success;
    }

    /** The reset frees nothing: nobody has the blocks of the live slots any more.
        The books balance without that loss exactly when no live span had
        attributes. */
    method ResetAfterFlush()
      requires Valid() && initialized
      modifies this`count, this`outside, this`owners
      ensures Valid() && count == 0 && outside == old(outside) + Attributes(old(Live()))
      ensures (exists o :: Books(blocks, o, [], results, old(outside))) <==>
              forall i :: 0 <= i < |old(Live())| ==> old(Live())[i].attributes == NULL
    {
      ghost var live := Live();
      if forall i :: 0 <= i < |live| ==> live[i].attributes == NULL {
        DropClearedSlots(blocks, owners, live, results, outside, 0);
        assert live[..0] == [];
      } else {
        ghost var i :| 0 <= i < |live| && live[i].attributes != NULL;
        LostBlock(blocks, owners, live, results, outside, i);
      }
      ForgetSlots(blocks, owners, live, results, outside);
      owners := Forgotten(owners, live);
      outside := outside + Attributes(live);
      count := 0;
      assert Live() == [];
    }

    // ---- Any run ----------------------------------------------------------

    ghost function Shown(): Picture
      reads this, slots
      requires Shape()
    {
      Picture(initialized, Contents(), ResultViews(results, blocks), |outside - callers.Keys|)
    }

    /** Any run of calls, with allocations failing anywhere: each does to the buffer
        and the results what Step says, and throughout the books balance and the
        callers' own blocks are as they were.  The spans written may be the
        callers' or those of outstanding results. */
    method Run(ops: seq<Op>) returns (answers: seq<Option<Status>>, ghost pictures: seq<Picture>)
      requires Sound() && forall i :: 0 <= i < |ops| ==> OpIsSafe(ops[i], callers)
      modifies this, slots
      ensures Sound()
      ensures |answers| == |ops| && |pictures| == |ops| + 1
      ensures pictures[0] == old(Shown()) && pictures[|ops|] == Shown()
      ensures forall n :: 0 <= n < |ops| ==> Step(callers, pictures[n], ops[n], answers[n], pictures[n + 1])
      ensures forall n :: 0 <= n < |ops| && Unlucky(pictures[n], ops[n], answers[n]) ==>
        Denied(works, old(asked), asked)
    {
      answers, pictures := [], [Shown()];
      assert Steps(callers, ops, answers, pictures);
      NoLuckYet(ops, pictures);
      hide Sound, Step, Shown, OpIsSafe, Steps, AnyUnlucky, Denied, Unlucky;
      for n := 0 to |ops|
        invariant Sound() && (slots == old(slots) || slots == null || fresh(slots))
        invariant |answers| == n && |pictures| == n + 1
        invariant pictures[0] == old(Shown()) && pictures[n] == Shown()
        invariant Steps(callers, ops, answers, pictures)
        invariant asked >= old(asked) && (AnyUnlucky(ops, answers, pictures) ==> Denied(works, old(asked), asked))
      {
        ghost var from := asked;
        var answer := Perform(ops[n]);
        MoreLuck(works, old(asked), from, asked, ops, answers, pictures, answer, Shown());
        OneMoreStep(callers, ops, answers, pictures, answer, Shown());
        answers, pictures := answers + [answer], pictures + [Shown()];
      }
      AllSteps(callers, ops, answers, pictures);
      WhoIsUnlucky(ops, answers, pictures);
    }

    method Perform(op: Op) returns (answer: Option<Status>)
      requires Sound() && OpIsSafe(op, callers)
      modifies this, slots
      ensures Sound() && (slots == old(slots) || slots == null || fresh(slots))
      ensures Step(callers, old(Shown()), op, answer, Shown())
      ensures asked >= old(asked) && (Unlucky(old(Shown()), op, answer) ==> Denied(works, old(asked), asked))
    {
      hide Step, Shown, Sound;
      match op
      case Write(source) => answer := PerformWrite(source);
      case WriteBatch(sources) => answer := PerformBatch(sources);
      case Collect(q) => answer := PerformCollect(q);
      case FreeResult(k) => answer := PerformFree(k);
      case Flush => answer := PerformFlush();
      case Start => answer := PerformStart();
      case Stop => answer := PerformStop();
    }

    lemma BufferLength()
      requires Shape()
      ensures |Contents()| == count
    {
    }

    /** A call that is not made. */
    lemma NoCall(op: Op)
      requires Shape()
      requires op.Write? ==> !Outstanding(op.source, results)
      requires op.WriteBatch? ==> exists i :: 0 <= i < |op.sources| && !Outstanding(op.sources[i], results)
      requires op.FreeResult? ==> op.which !in results
      requires op.Write? || op.WriteBatch? || op.FreeResult?
      ensures Step(callers, Shown(), op, None, Shown())
    {
    }

    method PerformWrite(source: Source) returns (answer: Option<Status>)
      requires Sound() && SourceIsSafe(source, callers)
      modifies this`asked, this`blocks, this`count, this`owners, slots
      ensures Sound() && Step(callers, old(Shown()), Write(source), answer, Shown())
      ensures asked >= old(asked) && (Unlucky(old(Shown()), Write(source), answer) ==> Denied(works, old(asked), asked))
    {
      hide Books, View, Views, ResultViews, Readable, Held, SeenFrom, Outstanding, SpanOf, Grows, Step, Live;
      BufferLength();
      if !Outstanding(source, results) {
        NoCall(Write(source));
        return None;
      }
      ghost var was, before := blocks, Shown();
      SourceIsReadable(callers, blocks, owners, Live(), results, outside, source);
      AllReadable(blocks, owners, Live(), results, outside);
      var status := WriteSpan(SpanOf(source, results));
      AllReadable(blocks, owners, Live(), results, outside);
      ResultsStay(results, was, blocks);
      GrowsOn(callers, was, blocks);
      Wrote(callers, before, source, status, Shown());
      return Some(status);
    }

    method PerformBatch(sources: seq<Source>) returns (answer: Option<Status>)
      requires Sound() && forall i :: 0 <= i < |sources| ==> SourceIsSafe(sources[i], callers)
      modifies this`asked, this`blocks, this`count, this`owners, slots
      ensures Sound() && Step(callers, old(Shown()), Op.WriteBatch(sources), answer, Shown())
      ensures asked >= old(asked)
      ensures Unlucky(old(Shown()), Op.WriteBatch(sources), answer) ==> Denied(works, old(asked), asked)
    {
      if !(forall i :: 0 <= i < |sources| ==> Outstanding(sources[i], results)) {
        NoCall(Op.WriteBatch(sources));
        return None;
      }
      var now := results;
      var spans := seq(|sources|, i requires 0 <= i < |sources| && Outstanding(sources[i], now) =>
                                    SpanOf(sources[i], now));
      hide Books, Grows, Denied, Step;
      ghost var was, before := blocks, Shown();
      BufferLength();
      SourcesAreReadable(callers, blocks, owners, Live(), results, outside, sources, spans);
      AllReadable(blocks, owners, Live(), results, outside);
      hide View, Views, ResultViews, Readable, AllSeen, AllHeld, Live;
      var status := WriteBatch(spans);
      AllReadable(blocks, owners, Live(), results, outside);
      ResultsStay(results, was, blocks);
      GrowsOn(callers, was, blocks);
      WroteBatch(callers, before, sources, status, Shown());
      return Some(status);
    }

    method PerformCollect(q: Query) returns (answer: Option<Status>)
      requires Sound()
      modifies this`asked, this`blocks, this`owners, this`results, this`nextResult, this`arrays
      ensures Sound() && Step(callers, old(Shown()), Op.Collect(q), answer, Shown())
      ensures asked >= old(asked) && (Unlucky(old(Shown()), Op.Collect(q), answer) ==> Denied(works, old(asked), asked))
    {
      ghost var was, held, before := blocks, results, Shown();
      hide Books, View, Views, Readable, Live, Selects, IsAnswer, ResultViews, Grows, Step;
      AllReadable(blocks, owners, Live(), results, outside);
      var status, which := Collect(q);
      AllReadable(blocks, owners, Live(), results, outside);
      ResultsStay(held, was, blocks);
      GrowsOn(callers, was, blocks);
      ghost var picked := [];
      if status == Success {
        picked := Views(results[which], blocks);
        OneMoreResult(held, blocks, which, results[which]);
      }
      Collected(callers, before, q, status, which, picked, Shown());
      return Some(status);
    }

    lemma HeldInView(k: nat)
      requires Shape() && k in results
      ensures k in Shown().results
    {
    }

    method PerformFree(k: nat) returns (answer: Option<Status>)
      requires Sound()
      modifies this`blocks, this`owners, this`results, this`arrays
      ensures Sound() && Step(callers, old(Shown()), FreeResult(k), answer, Shown())
      ensures answer != Some(OutOfMemory) && asked == old(asked)
    {
      if k !in results {
        NoCall(FreeResult(k));
        return None;
      }
      ghost var was, held, before := blocks, results, Shown();
      HeldInView(k);
      hide Books, View, Views, Readable, Live, ResultViews, Grows, Step;
      AllReadable(blocks, owners, Live(), results, outside);
      FreeSpans(k);
      AllReadable(blocks, owners, Live(), results, outside);
      CallersStay(callers, blocks, owners, Live(), results, outside, was);
      ResultsStay(results, blocks, was);
      FewerViews(held, was, k);
      Freed(callers, before, k, Shown());
      return Some(Success);
    }

    method PerformFlush() returns (answer: Option<Status>)
      requires Sound()
      modifies this`asked, this`count, this`outside, this`owners
      ensures Sound() && Step(callers, old(Shown()), Op.Flush, answer, Shown())
      ensures asked >= old(asked) && (Unlucky(old(Shown()), Op.Flush, answer) ==> Denied(works, old(asked), asked))
    {
      hide Books, View, Views, Readable, ResultViews, Attributes, WithText, Live, Grows, Step;
      ghost var before := Shown();
      LostCount(blocks, owners, Live(), results, outside, callers.Keys);
      BufferLength();
      var status := Flush();
      Flushed(callers, before, status, Shown());
      return Some(status);
    }

    method PerformStart() returns (answer: Option<Status>)
      requires Sound()
      modifies this`asked, this`initialized, this`slots, this`count
      ensures Sound() && (slots == old(slots) || fresh(slots))
      ensures Step(callers, old(Shown()), Start, answer, Shown())
      ensures asked >= old(asked) && (Unlucky(old(Shown()), Start, answer) ==> Denied(works, old(asked), asked))
    {
      hide Books, View, Views, Readable, ResultViews;
      var status := Init();
      return Some(status);
    }

    method PerformStop() returns (answer: Option<Status>)
      requires Sound()
      modifies this`initialized, this`slots, this`count, this`blocks, this`owners, slots
      ensures Sound() && (slots == old(slots) || slots == null)
      ensures Step(callers, old(Shown()), Stop, answer, Shown())
      ensures answer != Some(OutOfMemory) && asked == old(asked)
    {
      ghost var was := blocks;
      assert NULL !in was;
      Shutdown();
      AllReadable(blocks, owners, Live(), results, outside);
      CallersStay(callers, blocks, owners, Live(), results, outside, was);
      hide Books, View, Readable, ResultViews;
      ResultsStay(results, blocks, was);
      return Some(Success);
    }
  }

  /** Attributes of the callers' own spans are blocks of theirs. */
  ghost predicate OpIsSafe(op: Op, callers: Blocks) {
    match op
    case Write(source) => SourceIsSafe(source, callers)
    case WriteBatch(sources) => forall i :: 0 <= i < |sources| ==> SourceIsSafe(sources[i], callers)
    case _ => true
  }

  ghost predicate SourceIsSafe(source: Source, callers: Blocks) {
    source.Own? ==> source.span.attributes == NULL || source.span.attributes in callers
  }

  /** What readers see of the buffer and of the outstanding results, and how many
      blocks are lost for good. */
  datatype Picture = Picture(up: bool, buffer: seq<Seen>, results: map<nat, seq<Seen>>, lost: nat)

  ghost function ResultViews(results: Results, blocks: Blocks): map<nat, seq<Seen>> {
    map k | k in results :: Views(results[k], blocks)
  }

  ghost predicate Held(source: Source, results: map<nat, seq<Seen>>) {
    source.FromResult? ==> source.which in results && source.at < |results[source.which]|
  }

  ghost function SeenFrom(callers: Blocks, source: Source, results: map<nat, seq<Seen>>): Seen
    requires Held(source, results)
  {
    match source
    case Own(span) => View(span, callers)
    case FromResult(k, i) => results[k][i]
  }

  /** What one call does.  A call that would use a freed result is not made and
      answers None. */
  ghost predicate Step(callers: Blocks, a: Picture, op: Op, answer: Option<Status>, b: Picture) {
    match op
    case Write(source) =>
      if !Held(source, a.results) then answer == None && b == a
      else answer.Some? && Written(a, answer.value, [SeenFrom(callers, source, a.results)], b) &&
           WriteAnswer(a, SeenFrom(callers, source, a.results).info, answer.value)
    case WriteBatch(sources) =>
      if !AllHeld(sources, a.results) then answer == None && b == a
      else answer.Some? && Written(a, answer.value, AllSeen(callers, sources, a.results), b) &&
           BatchAnswer(a, |sources|, answer.value)
    case Collect(q) =>
      && answer.Some?
      && (answer == Some(NotInitialized) <==> !a.up)
      && (a.up ==> answer.value == Success || answer.value == NotFound || answer.value == OutOfMemory)
      && (a.up ==> (answer == Some(NotFound) <==> Selects(q, a.buffer, [])))
      && (answer == Some(Success) ==> exists k: nat, picked ::
            k !in a.results && IsAnswer(q, a.buffer, picked) && b == a.(results := a.results[k := picked]))
      && (answer != Some(Success) ==> b == a)
    case FreeResult(k) =>
      && (answer == if k in a.results then Some(Success) else None)
      && b == a.(results := a.results - {k})
    case Flush =>
      && (answer == Some(NotInitialized) <==> !a.up)
      && (a.up && a.buffer == [] ==> answer == Some(Success))
      && (a.up ==> answer == Some(Success) || answer == Some(FileOpenFailed))
      && b == if answer == Some(Success) then a.(buffer := [], lost := a.lost + WithText(a.buffer)) else a
    case Start =>
      && (answer == Some(Success) || answer == Some(OutOfMemory))
      && (a.up ==> answer == Some(Success))
      && b == if answer == Some(Success) then a.(up := true) else a
    case Stop =>
      answer == Some(Success) && b == a.(up := false, buffer := [])
  }

  /** The calls so far. */
  ghost predicate Steps(callers: Blocks, ops: seq<Op>, answers: seq<Option<Status>>, pictures: seq<Picture>) {
    && |answers| <= |ops| && |pictures| == |answers| + 1
    && forall n :: 0 <= n < |answers| ==> Step(callers, pictures[n], ops[n], answers[n], pictures[n + 1])
  }

  lemma OneMoreStep(callers: Blocks, ops: seq<Op>, answers: seq<Option<Status>>, pictures: seq<Picture>,
                    answer: Option<Status>, after: Picture)
    requires Steps(callers, ops, answers, pictures) && |answers| < |ops|
    requires Step(callers, pictures[|answers|], ops[|answers|], answer, after)
    ensures Steps(callers, ops, answers + [answer], pictures + [after])
  {
    hide Step;
  }

  lemma AllSteps(callers: Blocks, ops: seq<Op>, answers: seq<Option<Status>>, pictures: seq<Picture>)
    requires Steps(callers, ops, answers, pictures) && |answers| == |ops|
    ensures forall n :: 0 <= n < |ops| ==> Step(callers, pictures[n], ops[n], answers[n], pictures[n + 1])
  {
  }

  /** A flush that goes through while live spans have attributes. */
  ghost predicate Leaks(a: Picture, op: Op, answer: Option<Status>) {
    op.Flush? && answer == Some(Success) && WithText(a.buffer) > 0
  }

  /** A run of calls loses memory exactly when some call is such a flush. */
  lemma {:induction false} LosesIff(callers: Blocks, ops: seq<Op>, answers: seq<Option<Status>>,
                                    pictures: seq<Picture>, n: nat)
    requires Steps(callers, ops, answers, pictures) && n <= |answers|
    ensures pictures[n].lost >= pictures[0].lost
    ensures pictures[n].lost > pictures[0].lost <==>
            exists i :: 0 <= i < n && Leaks(pictures[i], ops[i], answers[i])
  {
    if n > 0 {
      LosesIff(callers, ops, answers, pictures, n - 1);
      assert Step(callers, pictures[n - 1], ops[n - 1], answers[n - 1], pictures[n]);
    }
  }

  /** An answer that only a failed allocation or fopen explains. */
  ghost predicate Unlucky(a: Picture, op: Op, answer: Option<Status>) {
    match op
    case Write(_) => answer == Some(OutOfMemory) && |a.buffer| < MAX_SPANS
    case WriteBatch(sources) => answer == Some(OutOfMemory) && |a.buffer| + |sources| <= MAX_SPANS
    case Flush => answer == Some(FileOpenFailed)
    case _ => answer == Some(OutOfMemory)
  }

  ghost predicate AnyUnlucky(ops: seq<Op>, answers: seq<Option<Status>>, pictures: seq<Picture>) {
    exists n :: 0 <= n < |answers| && n < |ops| && n < |pictures| && Unlucky(pictures[n], ops[n], answers[n])
  }

  lemma NoLuckYet(ops: seq<Op>, pictures: seq<Picture>)
    ensures !AnyUnlucky(ops, [], pictures)
  {
  }

  lemma WhoIsUnlucky(ops: seq<Op>, answers: seq<Option<Status>>, pictures: seq<Picture>)
    requires |answers| == |ops| < |pictures|
    ensures forall n :: 0 <= n < |ops| && Unlucky(pictures[n], ops[n], answers[n]) ==>
      AnyUnlucky(ops, answers, pictures)
  {
  }

  lemma MoreLuck(works: nat -> bool, a: nat, b: nat, c: nat, ops: seq<Op>, answers: seq<Option<Status>>,
                 pictures: seq<Picture>, answer: Option<Status>, after: Picture)
    requires a <= b <= c && |pictures| == |answers| + 1 && |answers| < |ops|
    requires AnyUnlucky(ops, answers, pictures) ==> Denied(works, a, b)
    requires Unlucky(pictures[|answers|], ops[|answers|], answer) ==> Denied(works, b, c)
    ensures AnyUnlucky(ops, answers + [answer], pictures + [after]) ==> Denied(works, a, c)
  {
    hide Unlucky;
  }

  ghost predicate AllHeld(sources: seq<Source>, results: map<nat, seq<Seen>>) {
    forall i :: 0 <= i < |sources| ==> Held(sources[i], results)
  }

  ghost function AllSeen(callers: Blocks, sources: seq<Source>, results: map<nat, seq<Seen>>): seq<Seen>
    requires AllHeld(sources, results)
  {
    seq(|sources|, i requires 0 <= i < |sources| => SeenFrom(callers, sources[i], results))
  }

  ghost predicate Written(a: Picture, status: Status, more: seq<Seen>, b: Picture) {
    b == if status == Success then a.(buffer := a.buffer + more) else a
  }

  ghost predicate WriteAnswer(a: Picture, info: SpanInfo, status: Status) {
    if !a.up then status == NotInitialized
    else if info.spanId == "" || info.traceId == "" then status == InvalidParam
    else if |a.buffer| == MAX_SPANS then status == OutOfMemory
    else status == Success || status == OutOfMemory
  }

  ghost predicate BatchAnswer(a: Picture, n: nat, status: Status) {
    if !a.up then status == NotInitialized
    else if n == 0 then status == InvalidParam
    else if |a.buffer| + n > MAX_SPANS then status == OutOfMemory
    else status == Success || status == OutOfMemory
  }

  lemma SourceIsReadable(callers: Blocks, blocks: Blocks, owners: Owners, slots: seq<Span>, results: Results,
                         foreign: set<Addr>, source: Source)
    requires Books(blocks, owners, slots, results, foreign) && Grows(callers, blocks)
    requires SourceIsSafe(source, callers) && Outstanding(source, results)
    ensures Readable([SpanOf(source, results)], blocks)
    ensures Held(source, ResultViews(results, blocks))
    ensures View(SpanOf(source, results), blocks) == SeenFrom(callers, source, ResultViews(results, blocks))
    ensures SpanOf(source, results).info == SeenFrom(callers, source, ResultViews(results, blocks)).info
  {
  }

  lemma SourcesAreReadable(callers: Blocks, blocks: Blocks, owners: Owners, slots: seq<Span>, results: Results,
                           foreign: set<Addr>, sources: seq<Source>, spans: seq<Span>)
    requires Books(blocks, owners, slots, results, foreign) && Grows(callers, blocks)
    requires |spans| == |sources|
    requires forall i :: 0 <= i < |sources| ==> SourceIsSafe(sources[i], callers)
    requires forall i :: 0 <= i < |sources| ==>
      Outstanding(sources[i], results) && spans[i] == SpanOf(sources[i], results)
    ensures Readable(spans, blocks) && AllHeld(sources, ResultViews(results, blocks))
    ensures Views(spans, blocks) == AllSeen(callers, sources, ResultViews(results, blocks))
  {
  }

  lemma AllReadable(blocks: Blocks, owners: Owners, slots: seq<Span>, results: Results, foreign: set<Addr>)
    requires Books(blocks, owners, slots, results, foreign)
    ensures NULL !in blocks && Readable(slots, blocks)
    ensures forall k :: k in results ==> Readable(results[k], blocks)
  {
  }

  lemma OneMoreResult(results: Results, blocks: Blocks, k: nat, spans: seq<Span>)
    ensures ResultViews(results[k := spans], blocks) == ResultViews(results, blocks)[k := Views(spans, blocks)]
  {
  }

  lemma Wrote(callers: Blocks, a: Picture, source: Source, status: Status, b: Picture)
    requires Held(source, a.results)
    requires WriteAnswer(a, SeenFrom(callers, source, a.results).info, status)
    requires Written(a, status, [SeenFrom(callers, source, a.results)], b)
    ensures Step(callers, a, Write(source), Some(status), b)
  {
  }

  lemma WroteBatch(callers: Blocks, a: Picture, sources: seq<Source>, status: Status, b: Picture)
    requires AllHeld(sources, a.results)
    requires BatchAnswer(a, |sources|, status) && Written(a, status, AllSeen(callers, sources, a.results), b)
    ensures Step(callers, a, Op.WriteBatch(sources), Some(status), b)
  {
  }

  lemma Freed(callers: Blocks, a: Picture, k: nat, b: Picture)
    requires k in a.results && b == a.(results := a.results - {k})
    ensures Step(callers, a, FreeResult(k), Some(Success), b)
  {
  }

  lemma Flushed(callers: Blocks, a: Picture, status: Status, b: Picture)
    requires status == NotInitialized <==> !a.up
    requires a.up ==> status == Success || status == FileOpenFailed
    requires a.up && a.buffer == [] ==> status == Success
    requires b == if status == Success then a.(buffer := [], lost := a.lost + WithText(a.buffer)) else a
    ensures Step(callers, a, Op.Flush, Some(status), b)
  {
  }

  lemma Collected(callers: Blocks, a: Picture, q: Query, status: Status, which: nat, picked: seq<Seen>, b: Picture)
    requires status == NotInitialized <==> !a.up
    requires a.up ==> status == Success || status == NotFound || status == OutOfMemory
    requires a.up ==> (status == NotFound <==> Selects(q, a.buffer, []))
    requires status == Success ==>
      which !in a.results && IsAnswer(q, a.buffer, picked) && b == a.(results := a.results[which := picked])
    requires status != Success ==> b == a
    ensures Step(callers, a, Op.Collect(q), Some(status), b)
  {
  }

  lemma FewerViews(results: Results, blocks: Blocks, k: nat)
    ensures ResultViews(results - {k}, blocks) == ResultViews(results, blocks) - {k}
  {
  }

  lemma GrowsOn(a: Blocks, b: Blocks, c: Blocks)
    requires Grows(a, b) && Grows(b, c)
    ensures Grows(a, c)
  {
  }

  lemma CallersStay(callers: Blocks, blocks: Blocks, owners: Owners, slots: seq<Span>, results: Results,
                    foreign: set<Addr>, was: Blocks)
    requires Books(blocks, owners, slots, results, foreign) && callers.Keys <= foreign
    requires Grows(callers, was) && Grows(blocks, was)
    ensures Grows(callers, blocks)
  {
  }

  /** Results read the same in a smaller and a larger heap. */
  lemma ResultsStay(results: Results, smaller: Blocks, larger: Blocks)
    requires Grows(smaller, larger) && NULL !in larger
    requires forall k :: k in results ==> Readable(results[k], smaller)
    ensures ResultViews(results, smaller) == ResultViews(results, larger)
  {
    forall k | k in results
      ensures Views(results[k], smaller) == Views(results[k], larger)
    {
      ViewsStay(results[k], smaller, larger);
    }
  }

  /** The blocks of the live slots when a flush forgets them. */
  ghost function Attributes(slots: seq<Span>): set<Addr> {
    set s | s in slots && s.attributes != NULL :: s.attributes
  }

  ghost function Forgotten(owners: Owners, slots: seq<Span>): Owners {
    map p | p in owners :: if p in Attributes(slots) then Owner.Outside else owners[p]
  }

  lemma ForgetSlots(blocks: Blocks, owners: Owners, slots: seq<Span>, results: Results, foreign: set<Addr>)
    requires Books(blocks, owners, slots, results, foreign)
    ensures Books(blocks, Forgotten(owners, slots), [], results, foreign + Attributes(slots))
  {
  }

  ghost function WithText(seen: seq<Seen>): nat {
    if seen == [] then 0
    else WithText(seen[..|seen| - 1]) + (if seen[|seen| - 1].text.Some? then 1 else 0)
  }

  /** Each live span with attributes has a block of its own to lose. */
  lemma LostCount(blocks: Blocks, owners: Owners, slots: seq<Span>, results: Results, foreign: set<Addr>,
                  callers: set<Addr>)
    requires Books(blocks, owners, slots, results, foreign) && callers <= foreign
    ensures |foreign + Attributes(slots) - callers| == |foreign - callers| + WithText(Views(slots, blocks))
  {
    forall p | p in Attributes(slots)
      ensures p !in foreign
    {
      var i :| 0 <= i < |slots| && slots[i].attributes == p;
    }
    CountAttributes(slots, blocks);
    assert foreign + Attributes(slots) - callers == (foreign - callers) + Attributes(slots);
  }

  lemma {:induction false} CountAttributes(slots: seq<Span>, blocks: Blocks)
    requires NULL !in blocks && Readable(slots, blocks)
    requires forall i, j :: 0 <= i < j < |slots| && slots[i].attributes == slots[j].attributes ==>
      slots[i].attributes == NULL
    ensures |Attributes(slots)| == WithText(Views(slots, blocks))
  {
    if slots == [] {
      assert Attributes(slots) == {};
    } else {
      var n := |slots| - 1;
      var last := slots[n];
      CountAttributes(slots[..n], blocks);
      assert Views(slots, blocks)[..n] == Views(slots[..n], blocks);
      assert slots == slots[..n] + [last];
      assert last.attributes == NULL || last.attributes !in Attributes(slots[..n]);
      OneMoreAttribute(slots[..n], last);
    }
  }

  lemma OneMoreAttribute(slots: seq<Span>, last: Span)
    ensures Attributes(slots + [last]) ==
            Attributes(slots) + if last.attributes == NULL then {} else {last.attributes}
  {
  }

  /** A block whose slot was forgotten has no owner under any account. */
  lemma LostBlock(blocks: Blocks, owners: Owners, slots: seq<Span>, results: Results, foreign: set<Addr>, i: nat)
    requires Books(blocks, owners, slots, results, foreign) && i < |slots| && slots[i].attributes != NULL
    ensures forall o :: !Books(blocks, o, [], results, foreign)
  {
  }

  // ---- Query results in the making ------------------------------------------

  /** Inside the second pass: pend holds the copies so far, booked as result k. */
  ghost predicate Gathering(was: Blocks, blocks: Blocks, owners: Owners, slots: seq<Span>, results: Results,
                            foreign: set<Addr>, k: nat, pend: seq<Span>)
  {
    && Grows(was, blocks)
    && k !in results
    && Books(blocks, owners, slots, results[k := pend], foreign)
    && forall p :: p in blocks && p in owners ==> (p !in was <==> owners[p].InResult? && owners[p].which == k)
  }

  lemma StartGathering(blocks: Blocks, owners: Owners, slots: seq<Span>, results: Results, foreign: set<Addr>, k: nat)
    requires Books(blocks, owners, slots, results, foreign) && k !in results
    ensures Gathering(blocks, blocks, owners, slots, results, foreign, k, [])
  {
    OpenResult(blocks, owners, slots, results, foreign, k);
  }

  lemma EndGathering(was: Blocks, blocks: Blocks, owners: Owners, slots: seq<Span>, results: Results,
                     foreign: set<Addr>, k: nat, pend: seq<Span>)
    requires Gathering(was, blocks, owners, slots, results, foreign, k, pend)
    ensures Grows(was, blocks) && Books(blocks, owners, slots, results[k := pend], foreign)
    ensures NULL !in blocks
  {
  }

  lemma GatheredOne(was: Blocks, before: Blocks, blocks: Blocks, owners: Owners, owners': Owners,
                    slots: seq<Span>, results: Results, foreign: set<Addr>, k: nat, pend: seq<Span>,
                    source: Span, copy: Span)
    requires Gathering(was, before, owners, slots, results, foreign, k, pend)
    requires copy.info == source.info
    requires source.attributes == NULL ==>
      copy.attributes == NULL && blocks == before && owners' == owners
    requires source.attributes != NULL ==>
      && source.attributes in was && copy.attributes != NULL && copy.attributes !in before
      && blocks == before[copy.attributes := before[source.attributes]]
      && owners' == owners[copy.attributes := InResult(k, |pend|)]
    ensures Gathering(was, blocks, owners', slots, results, foreign, k, pend + [copy])
    ensures Views(pend + [copy], blocks) == Views(pend, before) + [View(source, was)]
  {
    var now := results[k := pend];
    var text := if source.attributes == NULL then "" else before[source.attributes];
    AppendToResult(before, owners, slots, now, foreign, k, copy, text);
    assert now[k := now[k] + [copy]] == results[k := pend + [copy]];
    assert forall i :: 0 <= i < |pend| ==> now[k][i] == pend[i];
    assert Readable(pend, before);
    ViewsStay(pend, before, blocks);
  }

  lemma DropOne(was: Blocks, blocks: Blocks, owners: Owners, slots: seq<Span>, results: Results,
                foreign: set<Addr>, k: nat, pend: seq<Span>, j: nat)
    requires Gathering(was, blocks, owners, slots, results, foreign, k, pend) && j < |pend|
    ensures pend[j].attributes == NULL || pend[j].attributes in blocks
    ensures Gathering(was, blocks - {pend[j].attributes}, owners - {pend[j].attributes}, slots, results,
                      foreign, k, pend[j := pend[j].(attributes := NULL)])
  {
    var now := results[k := pend];
    ClearInResult(blocks, owners, slots, now, foreign, k, j);
    assert now[k][j] == pend[j];
    assert now[k := now[k][j := now[k][j].(attributes := NULL)]] ==
           results[k := pend[j := pend[j].(attributes := NULL)]];
  }

  lemma DroppedAll(was: Blocks, blocks: Blocks, owners: Owners, slots: seq<Span>, results: Results,
                   foreign: set<Addr>, k: nat, pend: seq<Span>)
    requires Gathering(was, blocks, owners, slots, results, foreign, k, pend)
    requires forall i :: 0 <= i < |pend| ==> pend[i].attributes == NULL
    ensures blocks == was && Books(blocks, owners, slots, results, foreign)
  {
    var now := results[k := pend];
    CloseClearedResult(blocks, owners, slots, now, foreign, k);
    assert now - {k} == results;
    forall p | p in blocks
      ensures p in was
    {
      assert p in owners && Owns(slots, now, foreign, owners[p], p);
    }
    forall p | p in was
      ensures p in blocks && blocks[p] == was[p]
    {
    }
    assert blocks.Keys == was.Keys;
  }
}
