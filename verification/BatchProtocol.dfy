/** Adders and committers of one batch context, interleaved.  The pointer writes
    of a critical section are one step, because nobody reads head, tail or a
    queued item outside the lock; `count` is read outside it, so each access to
    it is a step of its own. */
module BatchProtocol {
  import opened Status

  /** Where a thread stands; an item is named by the order of its allocation. */
  datatype Pc<R> =
    | Idle
    | Entering(record: R)
    | Allocating(record: R)
    | Filled(item: nat)
    | Cleared(item: nat)
    | Locked(item: nat)
    | Linked(item: nat)
    | Counted(item: nat)
    | Committing
    | Detaching
    | Detached(batch: nat, first: Option<nat>)
    | Zeroed(batch: nat, first: Option<nat>)
    | Draining(batch: nat, first: Option<nat>)

  /** The detached lists: list b is the part of the log from marks[b] to
      marks[b + 1], and is handed over up to cursors[b]. */
  datatype Lists = Lists(marks: seq<nat>, cursors: seq<nat>)

  type Batches = lists: Lists | |lists.marks| == |lists.cursors| + 1 witness Lists([0], [])

  /** An item given to the registry, and the batch it came from. */
  datatype Handover = Handover(batch: nat, item: nat)

  datatype State<R> = State(
    capacity: nat,
    adders: nat,                     // threads below this number may add
    pcs: seq<Pc<R>>,
    lock: Option<nat>,
    head: Option<nat>,
    tail: Option<nat>,
    count: nat,
    next: map<nat, Option<nat>>,     // the allocated items
    // history
    records: seq<R>,                 // the record of every item ever allocated
    log: seq<nat>,                   // the items in the order they were linked
    added: seq<nat>,                 // the items whose add returned success
    batches: Batches,
    handed: seq<Handover>)

  /** What the outside decides: the call of an idle thread, or whether memory is
      there for one that runs. */
  datatype Choice<R> = Add(record: R) | Commit | Proceed(memory: bool)

  datatype Event<R> = Event(thread: nat, choice: Choice<R>)

  function Initial<R>(capacity: nat, adders: nat, threads: nat): State<R> {
    State(capacity, adders, seq(threads, _ => Idle), None, None, None, 0, map[], [], [], [], Lists([0], []), [])
  }

  /** The first position of the log that is still queued. */
  function Start(batches: Batches): nat {
    batches.marks[|batches.cursors|]
  }

  function Detach(batches: Batches, end: nat): Batches {
    Lists(batches.marks + [end], batches.cursors + [Start(batches)])
  }

  function At<R>(s: State<R>, t: nat, pc: Pc<R>): State<R>
    requires t < |s.pcs|
  {
    s.(pcs := s.pcs[t := pc])
  }

  /** Where thread t goes next. */
  function Go<R>(s: State<R>, t: nat, choice: Choice<R>): Pc<R>
    requires t < |s.pcs|
  {
    var pc := s.pcs[t];
    match pc
    case Idle =>
      (match choice
       case Add(r) => if t < s.adders then Entering(r) else pc
       case Commit => Committing
       case Proceed(_) => pc)
    case Entering(r) => if s.count >= s.capacity then Idle else Allocating(r)
    case Allocating(r) => if choice == Proceed(true) then Filled(|s.records|) else Idle
    case Filled(item) => if s.count >= s.capacity then Idle else Cleared(item)
    case Cleared(item) => if s.lock.None? then Locked(item) else pc
    case Locked(item) => Linked(item)
    case Linked(item) => Counted(item)
    case Counted(_) => Idle
    case Committing => if s.lock.None? then Detaching else pc
    case Detaching => Detached(|s.batches.cursors|, s.head)
    case Detached(b, first) => Zeroed(b, first)
    case Zeroed(b, first) => Draining(b, first)
    case Draining(b, first) =>
      if first.None? then Idle
      else if first.value in s.next then Draining(b, s.next[first.value])
      else pc
  }

  /** What its step does to the context and to memory. */
  function Act<R>(s: State<R>, t: nat, choice: Choice<R>): (after: State<R>)
    requires t < |s.pcs|
    ensures after.pcs == s.pcs
  {
    match s.pcs[t]
    case Allocating(r) =>
      if choice == Proceed(true) then
        s.(records := s.records + [r], next := s.next[|s.records| := None])
      else s
    case Filled(item) => if s.count >= s.capacity then s.(next := s.next - {item}) else s
    case Cleared(_) => if s.lock.None? then s.(lock := Some(t)) else s
    case Locked(item) => Link(s, item)
    case Linked(_) => s.(count := s.count + 1)
    case Counted(item) => s.(lock := None, added := s.added + [item])
    case Committing => if s.lock.None? then s.(lock := Some(t)) else s
    case Detaching => s.(head := None, tail := None, batches := Detach(s.batches, |s.log|))
    case Detached(_, _) => s.(count := 0)
    case Zeroed(_, _) => s.(lock := None)
    case Draining(b, Some(item)) => if item in s.next then HandOver(s, b, item) else s
    case _ => s
  }

  function Step<R>(s: State<R>, t: nat, choice: Choice<R>): State<R>
    requires t < |s.pcs|
  {
    At(Act(s, t, choice), t, Go(s, t, choice))
  }

  /** tail->next = item; tail = item, or head = tail = item */
  function Link<R>(s: State<R>, item: nat): State<R> {
    s.(head := if s.tail.Some? then s.head else Some(item),
       tail := Some(item),
       next := if s.tail.Some? then s.next[s.tail.value := Some(item)] else s.next,
       log := s.log + [item])
  }

  /** One turn of the drain loop: the registry gets the record, the item is freed. */
  function HandOver<R>(s: State<R>, b: nat, item: nat): State<R> {
    s.(next := s.next - {item},
       batches := if b < |s.batches.cursors|
                  then Lists(s.batches.marks, s.batches.cursors[b := s.batches.cursors[b] + 1])
                  else s.batches,
       handed := s.handed + [Handover(b, item)])
  }

  function Handed<R>(s: State<R>, t: nat, b: nat, item: nat): State<R>
    requires t < |s.pcs| && item in s.next && b < |s.batches.cursors|
  {
    At(HandOver(s, b, item), t, Draining(b, s.next[item]))
  }

  function Run<R>(s: State<R>, events: seq<Event<R>>): State<R> {
    if events == [] then s
    else
      var before := Run(s, events[..|events| - 1]);
      var event := events[|events| - 1];
      if event.thread < |before.pcs| then Step(before, event.thread, event.choice) else before
  }

  // ---- The invariant --------------------------------------------------------

  predicate HoldsLock<R>(pc: Pc<R>) {
    pc.Locked? || pc.Linked? || pc.Counted? || pc.Detaching? || pc.Detached? || pc.Zeroed?
  }

  ghost predicate LockOk<R>(s: State<R>) {
    && (forall t :: 0 <= t < |s.pcs| ==> (HoldsLock(s.pcs[t]) <==> s.lock == Some(t)))
    && (s.lock.Some? ==> s.lock.value < |s.pcs|)
  }

  /** The lists are consecutive parts of the log from its beginning. */
  ghost predicate Pieces(batches: Batches, total: nat) {
    && batches.marks[0] == 0 && Start(batches) <= total
    && (forall b, c :: 0 <= b <= c < |batches.marks| ==> batches.marks[b] <= batches.marks[c])
    && (forall b :: 0 <= b < |batches.cursors| ==> InList(batches, b, batches.cursors[b]))
  }

  ghost predicate InList(batches: Batches, b: nat, p: nat) {
    b < |batches.cursors| && batches.marks[b] <= p <= batches.marks[b + 1]
  }

  ghost function ItemAt(log: seq<nat>, p: nat, hi: nat): Option<nat> {
    if p < hi && p < |log| then Some(log[p]) else None
  }

  /** log[lo..hi] is a linked list of allocated items ending in NULL. */
  ghost predicate Chain(next: map<nat, Option<nat>>, log: seq<nat>, lo: nat, hi: nat) {
    forall p :: lo <= p < hi && p < |log| ==> log[p] in next && next[log[p]] == ItemAt(log, p + 1, hi)
  }

  /** head and tail are the ends of the list of the queued items. */
  ghost predicate QueueOk<R>(s: State<R>) {
    var start := Start(s.batches);
    && start <= |s.log|
    && Chain(s.next, s.log, start, |s.log|)
    && s.head == ItemAt(s.log, start, |s.log|)
    && s.tail == if start < |s.log| then Some(s.log[|s.log| - 1]) else None
  }

  function QueueLength<R>(s: State<R>): int {
    |s.log| - Start(s.batches)
  }

  ghost predicate CountOk<R>(s: State<R>) {
    if s.lock.Some? && s.lock.value < |s.pcs| && s.pcs[s.lock.value].Linked? then
      s.count + 1 == QueueLength(s)
    else if s.lock.Some? && s.lock.value < |s.pcs| && s.pcs[s.lock.value].Detached? then
      QueueLength(s) == 0
    else
      s.count == QueueLength(s)
  }

  predicate HasBatch<R>(pc: Pc<R>) {
    pc.Detached? || pc.Zeroed? || pc.Draining?
  }

  ghost predicate Commits<R>(pcs: seq<Pc<R>>, t: nat, b: nat) {
    t < |pcs| && HasBatch(pcs[t]) && pcs[t].batch == b
  }

  ghost predicate ChainsOk(next: map<nat, Option<nat>>, log: seq<nat>, batches: Batches) {
    forall b :: 0 <= b < |batches.cursors| ==> Chain(next, log, batches.cursors[b], batches.marks[b + 1])
  }

  /** A committer holds the first item of a list of its own. */
  ghost predicate CursorsOk<R>(pcs: seq<Pc<R>>, log: seq<nat>, batches: Batches) {
    && (forall t :: 0 <= t < |pcs| && HasBatch(pcs[t]) ==>
          && pcs[t].batch < |batches.cursors|
          && pcs[t].first == ItemAt(log, batches.cursors[pcs[t].batch], batches.marks[pcs[t].batch + 1]))
    && (forall t, u :: 0 <= t < u < |pcs| && HasBatch(pcs[t]) && HasBatch(pcs[u]) ==>
          pcs[t].batch != pcs[u].batch)
  }

  ghost predicate Unfinished(batches: Batches, b: nat) {
    b < |batches.cursors| && batches.cursors[b] < batches.marks[b + 1]
  }

  /** A detached list is not forgotten before its end. */
  ghost predicate CommittersOk<R>(pcs: seq<Pc<R>>, batches: Batches) {
    forall b :: Unfinished(batches, b) ==> exists t :: Commits(pcs, t, b)
  }

  ghost predicate BatchesOk<R>(s: State<R>) {
    && Pieces(s.batches, |s.log|)
    && ChainsOk(s.next, s.log, s.batches)
    && CursorsOk(s.pcs, s.log, s.batches)
    && CommittersOk(s.pcs, s.batches)
  }

  /** A thread owns an item from its allocation to its linking. */
  predicate HasItem<R>(pc: Pc<R>) {
    pc.Filled? || pc.Cleared? || pc.Locked?
  }

  ghost predicate Owns<R>(pcs: seq<Pc<R>>, t: nat, item: nat) {
    t < |pcs| && HasItem(pcs[t]) && pcs[t].item == item
  }

  /** An item that is not linked yet is allocated and belongs to one thread. */
  ghost predicate OwnersOk<R>(s: State<R>) {
    && (forall t :: 0 <= t < |s.pcs| && HasItem(s.pcs[t]) ==>
          && s.pcs[t].item < |s.records| && s.pcs[t].item !in s.log
          && s.pcs[t].item in s.next && s.next[s.pcs[t].item] == None)
    && (forall t, u :: 0 <= t < u < |s.pcs| && HasItem(s.pcs[t]) && HasItem(s.pcs[u]) ==>
          s.pcs[t].item != s.pcs[u].item)
  }

  /** No item is linked twice. */
  ghost predicate LogOk(log: seq<nat>, allocations: nat) {
    && (forall p :: 0 <= p < |log| ==> log[p] < allocations)
    && (forall p, q :: 0 <= p < q < |log| ==> log[p] != log[q])
  }

  /** Position p of the log is handed over. */
  ghost predicate Gone(batches: Batches, p: nat) {
    exists b :: 0 <= b < |batches.cursors| && batches.marks[b] <= p < batches.cursors[b]
  }

  ghost predicate Waits(log: seq<nat>, batches: Batches, item: nat) {
    exists p :: 0 <= p < |log| && log[p] == item && !Gone(batches, p)
  }

  /** Nothing leaks: an allocated item is owned by a thread or waits in a list. */
  ghost predicate NoLeak<R>(s: State<R>) {
    forall i :: i in s.next ==> Waits(s.log, s.batches, i) || exists t :: Owns(s.pcs, t, i)
  }

  /** The item whose add is about to return: it is linked, and the lock still held. */
  ghost function Returning<R>(s: State<R>): seq<nat> {
    if s.lock.Some? && s.lock.value < |s.pcs| then
      var pc := s.pcs[s.lock.value];
      if pc.Linked? || pc.Counted? then [pc.item] else []
    else []
  }

  ghost predicate AddedOk<R>(s: State<R>) {
    s.log == s.added + Returning(s)
  }

  function HandedBy(handed: seq<Handover>, b: nat): seq<nat> {
    if handed == [] then []
    else
      var last := handed[|handed| - 1];
      HandedBy(handed[..|handed| - 1], b) + (if last.batch == b then [last.item] else [])
  }

  ghost predicate ListHanded<R>(s: State<R>, b: nat)
    requires b < |s.batches.cursors|
  {
    && s.batches.marks[b] <= s.batches.cursors[b] <= |s.log|
    && HandedBy(s.handed, b) == s.log[s.batches.marks[b]..s.batches.cursors[b]]
  }

  /** Each list was handed over in order, up to its cursor. */
  ghost predicate HandedOk<R>(s: State<R>) {
    && (forall h :: h in s.handed ==> h.batch < |s.batches.cursors|)
    && (forall b :: 0 <= b < |s.batches.cursors| ==> ListHanded(s, b))
  }

  ghost predicate Inv<R>(s: State<R>) {
    LockOk(s) && QueueOk(s) && CountOk(s) && BatchesOk(s) && LogOk(s.log, |s.records|) &&
    OwnersOk(s) && NoLeak(s) && AddedOk(s) && HandedOk(s)
  }

  // ---- Every step keeps it ----------------------------------------------------

  /** `item` is what list b comes to. */
  ghost predicate Next<R>(s: State<R>, b: nat, item: nat) {
    && b < |s.batches.cursors| && item in s.next
    && ItemAt(s.log, s.batches.cursors[b], s.batches.marks[b + 1]) == Some(item)
  }

  /** A turn of a drain loop hands over the item its list comes to. */
  lemma DrainStep<R>(s: State<R>, t: nat, choice: Choice<R>)
    requires t < |s.pcs| && s.pcs[t].Draining? && s.pcs[t].first.Some? && BatchesOk(s)
    ensures var b, item := s.pcs[t].batch, s.pcs[t].first.value;
      && Commits(s.pcs, t, b) && Next(s, b, item)
      && Step(s, t, choice) == Handed(s, t, b, item)
  {
  }

  lemma OneMoves<R>(s: State<R>, t: nat, choice: Choice<R>)
    requires t < |s.pcs|
    ensures Step(s, t, choice).pcs == s.pcs[t := Go(s, t, choice)]
  {
  }

  /** A thread takes the lock only when it is free, and only the holder lets it go. */
  lemma LockMoves<R>(s: State<R>, t: nat, choice: Choice<R>)
    requires t < |s.pcs|
    ensures var after := Act(s, t, choice);
      var held, holds := HoldsLock(s.pcs[t]), HoldsLock(Go(s, t, choice));
      if held == holds then after.lock == s.lock
      else if held then after.lock == None
      else s.lock == None && after.lock == Some(t)
  {
  }

  lemma StepKeepsLock<R>(s: State<R>, t: nat, choice: Choice<R>)
    requires t < |s.pcs| && LockOk(s)
    ensures LockOk(Step(s, t, choice))
  {
  }

  lemma HolderKeepsCount<R>(s: State<R>, t: nat, choice: Choice<R>)
    requires t < |s.pcs| && HoldsLock(s.pcs[t]) && s.lock == Some(t)
    ensures CountOk(s) ==> CountOk(Step(s, t, choice))
    ensures AddedOk(s) ==> AddedOk(Step(s, t, choice))
  {
  }

  /** A thread without the lock changes neither the count nor the queue. */
  lemma WithoutLock<R>(s: State<R>, t: nat, choice: Choice<R>)
    requires t < |s.pcs| && !HoldsLock(s.pcs[t])
    ensures var s' := Step(s, t, choice);
      && s'.count == s.count && s'.log == s.log && s'.added == s.added
      && Start(s'.batches) == Start(s.batches)
      && !s'.pcs[t].Linked? && !s'.pcs[t].Counted? && !s'.pcs[t].Detached?
  {
  }

  lemma StepKeepsCount<R>(s: State<R>, t: nat, choice: Choice<R>)
    requires t < |s.pcs| && LockOk(s) && CountOk(s) && AddedOk(s)
    ensures CountOk(Step(s, t, choice)) && AddedOk(Step(s, t, choice))
  {
    hide Go, Act, HoldsLock;
    if HoldsLock(s.pcs[t]) {
      HolderKeepsCount(s, t, choice);
    } else {
      OneMoves(s, t, choice);
      LockMoves(s, t, choice);
      WithoutLock(s, t, choice);
    }
  }

  lemma LinkKeepsQueue<R>(s: State<R>, item: nat)
    requires QueueOk(s) && item !in s.log && item in s.next && s.next[item] == None
    ensures QueueOk(Link(s, item))
  {
  }

  lemma HandKeepsQueue<R>(s: State<R>, t: nat, b: nat, item: nat)
    requires t < |s.pcs| && QueueOk(s) && LogOk(s.log, |s.records|) && Pieces(s.batches, |s.log|)
    requires Next(s, b, item)
    ensures QueueOk(Handed(s, t, b, item))
  {
    BeforeStart(s.batches, |s.log|, b);
    assert Start(Handed(s, t, b, item).batches) == Start(s.batches);
    hide Pieces, LogOk;
    ChainWithout(s.next, s.log, |s.records|, Start(s.batches), |s.log|, s.batches.cursors[b]);
  }

  /** Freeing an item leaves the lists alone that do not hold it. */
  lemma ChainWithout(next: map<nat, Option<nat>>, log: seq<nat>, allocations: nat, lo: nat, hi: nat, freed: nat)
    requires Chain(next, log, lo, hi) && LogOk(log, allocations)
    requires freed < |log| && !(lo <= freed < hi)
    ensures Chain(next - {log[freed]}, log, lo, hi)
  {
  }

  lemma BeforeStart(batches: Batches, total: nat, b: nat)
    requires Pieces(batches, total) && b < |batches.cursors|
    ensures batches.marks[b + 1] <= Start(batches) <= total
  {
  }

  /** The steps that touch no list. */
  predicate Quiet<R>(pc: Pc<R>) {
    !pc.Locked? && !pc.Draining? && !pc.Detaching?
  }

  /** They change at most an item that is in no list. */
  ghost predicate OutsideLists<R>(s: State<R>, s': State<R>) {
    && s'.log == s.log && s'.head == s.head && s'.tail == s.tail
    && s'.batches == s.batches && s'.handed == s.handed
    && |s'.records| >= |s.records|
    && (forall p :: 0 <= p < |s.log| ==>
          (s.log[p] in s'.next <==> s.log[p] in s.next) &&
          (s.log[p] in s.next ==> s'.next[s.log[p]] == s.next[s.log[p]]))
  }

  lemma QuietStep<R>(s: State<R>, t: nat, choice: Choice<R>)
    requires t < |s.pcs| && LogOk(s.log, |s.records|) && OwnersOk(s) && Quiet(s.pcs[t])
    ensures OutsideLists(s, Step(s, t, choice))
  {
  }

  lemma QuietKeepsQueue<R>(s: State<R>, s': State<R>)
    requires OutsideLists(s, s') && QueueOk(s)
    ensures QueueOk(s')
  {
  }

  lemma DetachKeepsQueue<R>(s: State<R>, t: nat, choice: Choice<R>)
    requires t < |s.pcs| && s.pcs[t].Detaching?
    ensures QueueOk(Step(s, t, choice))
  {
  }

  lemma FinishStep<R>(s: State<R>, t: nat, choice: Choice<R>)
    requires t < |s.pcs| && s.pcs[t].Draining? && s.pcs[t].first.None?
    ensures Step(s, t, choice) == At(s, t, Idle)
  {
  }

  lemma LinkStep<R>(s: State<R>, t: nat, choice: Choice<R>)
    requires t < |s.pcs| && s.pcs[t].Locked? && OwnersOk(s)
    ensures var item := s.pcs[t].item;
      && Step(s, t, choice) == Link(At(s, t, Linked(item)), item)
      && item !in s.log && item in s.next && s.next[item] == None
  {
  }

  lemma StepKeepsQueue<R>(s: State<R>, t: nat, choice: Choice<R>)
    requires t < |s.pcs| && QueueOk(s) && LogOk(s.log, |s.records|) && OwnersOk(s) && BatchesOk(s)
    ensures QueueOk(Step(s, t, choice))
  {
    hide Step, Link, Handed, LogOk, OwnersOk, Chain, Pieces, ChainsOk, CursorsOk, CommittersOk, OutsideLists;
    var pc := s.pcs[t];
    if Quiet(pc) {
      QuietStep(s, t, choice);
      QuietKeepsQueue(s, Step(s, t, choice));
    } else if pc.Locked? {
      LinkStep(s, t, choice);
      LinkKeepsQueue(At(s, t, Linked(pc.item)), pc.item);
    } else if pc.Detaching? {
      DetachKeepsQueue(s, t, choice);
    } else if pc.first.Some? {
      DrainStep(s, t, choice);
      HandKeepsQueue(s, t, pc.batch, pc.first.value);
    } else {
      FinishStep(s, t, choice);
    }
  }

  lemma LinkKeepsChains<R>(s: State<R>, item: nat)
    requires QueueOk(s) && LogOk(s.log, |s.records|) && item !in s.log
    requires Pieces(s.batches, |s.log|) && ChainsOk(s.next, s.log, s.batches)
    ensures ChainsOk(Link(s, item).next, Link(s, item).log, s.batches)
  {
  }

  lemma HandKeepsChains<R>(s: State<R>, t: nat, b: nat, item: nat)
    requires t < |s.pcs| && LogOk(s.log, |s.records|)
    requires Pieces(s.batches, |s.log|) && ChainsOk(s.next, s.log, s.batches)
    requires Next(s, b, item)
    ensures ChainsOk(Handed(s, t, b, item).next, s.log, Handed(s, t, b, item).batches)
  {
  }

  lemma Apart(batches: Batches, total: nat, b: nat, c: nat)
    requires Pieces(batches, total) && b < |batches.cursors| && c < |batches.cursors|
    ensures batches.marks[c] <= batches.cursors[c] <= batches.marks[c + 1] <= total
    ensures b < c ==> batches.marks[b + 1] <= batches.marks[c]
    ensures c < b ==> batches.marks[c + 1] <= batches.marks[b]
  {
  }

  lemma HandKeepsPieces<R>(s: State<R>, t: nat, b: nat, item: nat)
    requires t < |s.pcs| && Pieces(s.batches, |s.log|)
    requires Next(s, b, item)
    ensures Pieces(Handed(s, t, b, item).batches, |s.log|)
  {
  }

  lemma DetachedPiece(batches: Batches, total: nat)
    requires Pieces(batches, total)
    ensures Pieces(Detach(batches, total), total)
  {
  }

  lemma HandKeepsCursors<R>(s: State<R>, t: nat, b: nat, item: nat)
    requires t < |s.pcs| && BatchesOk(s) && Commits(s.pcs, t, b) && Next(s, b, item)
    ensures CursorsOk(Handed(s, t, b, item).pcs, s.log, Handed(s, t, b, item).batches)
    ensures CommittersOk(Handed(s, t, b, item).pcs, Handed(s, t, b, item).batches)
  {
    var s' := Handed(s, t, b, item);
    assert Chain(s.next, s.log, s.batches.cursors[b], s.batches.marks[b + 1]);
    assert s'.pcs[t].first == ItemAt(s.log, s'.batches.cursors[b], s'.batches.marks[b + 1]);
    hide Pieces, ChainsOk, Chain, Step, ItemAt;
    forall c | Unfinished(s'.batches, c)
      ensures exists u :: Commits(s'.pcs, u, c)
    {
      if c == b {
        assert Commits(s'.pcs, t, c);
      } else {
        assert Unfinished(s.batches, c);
        var u :| Commits(s.pcs, u, c);
        assert Commits(s'.pcs, u, c);
      }
    }
  }

  /** Steps that neither take nor give up a list keep the committers. */
  lemma KeepsCursors<R>(pcs: seq<Pc<R>>, pcs': seq<Pc<R>>, log: seq<nat>, log': seq<nat>, batches: Batches)
    requires CursorsOk(pcs, log, batches) && CommittersOk(pcs, batches)
    requires |pcs'| == |pcs| && log <= log' && Pieces(batches, |log|)
    requires forall t :: 0 <= t < |pcs| ==>
      (HasBatch(pcs'[t]) <==> HasBatch(pcs[t])) &&
      (HasBatch(pcs[t]) ==> pcs'[t].batch == pcs[t].batch && pcs'[t].first == pcs[t].first)
    ensures CursorsOk(pcs', log', batches) && CommittersOk(pcs', batches)
  {
    forall b | 0 <= b < |batches.cursors|
      ensures ItemAt(log', batches.cursors[b], batches.marks[b + 1]) ==
              ItemAt(log, batches.cursors[b], batches.marks[b + 1])
    {
      BeforeStart(batches, |log|, b);
    }
    forall b | Unfinished(batches, b)
      ensures exists t :: Commits(pcs', t, b)
    {
      var t :| Commits(pcs, t, b);
      assert Commits(pcs', t, b);
    }
  }

  lemma DetachKeepsBatches<R>(s: State<R>, t: nat, choice: Choice<R>)
    requires t < |s.pcs| && s.pcs[t].Detaching? && BatchesOk(s) && QueueOk(s)
    ensures BatchesOk(Step(s, t, choice))
  {
    var s' := Step(s, t, choice);
    var n := |s.batches.cursors|;
    assert s'.batches == Detach(s.batches, |s.log|);
    DetachedPiece(s.batches, |s.log|);
    assert ChainsOk(s'.next, s'.log, s'.batches);
    hide Pieces, ChainsOk, Chain, Step;
    forall b | Unfinished(s'.batches, b)
      ensures exists u :: Commits(s'.pcs, u, b)
    {
      if b == n {
        assert Commits(s'.pcs, t, b);
      } else {
        assert Unfinished(s.batches, b);
        var u :| Commits(s.pcs, u, b);
        assert Commits(s'.pcs, u, b);
      }
    }
  }

  lemma FinishKeepsBatches<R>(s: State<R>, t: nat, choice: Choice<R>)
    requires t < |s.pcs| && s.pcs[t].Draining? && s.pcs[t].first.None? && BatchesOk(s)
    ensures BatchesOk(Step(s, t, choice))
  {
    var s' := Step(s, t, choice);
    var done := s.pcs[t].batch;
    assert !Unfinished(s.batches, done);
    hide Pieces, ChainsOk;
    forall b | Unfinished(s'.batches, b)
      ensures exists u :: Commits(s'.pcs, u, b)
    {
      var u :| Commits(s.pcs, u, b);
      assert Commits(s'.pcs, u, b);
    }
  }

  lemma QuietKeepsBatches<R>(s: State<R>, t: nat, choice: Choice<R>)
    requires t < |s.pcs| && LogOk(s.log, |s.records|) && OwnersOk(s) && BatchesOk(s) && Quiet(s.pcs[t])
    ensures BatchesOk(Step(s, t, choice))
  {
    var s' := Step(s, t, choice);
    QuietStep(s, t, choice);
    hide OwnersOk, LogOk, ChainsOk, CursorsOk, CommittersOk;
    KeepsCursors(s.pcs, s'.pcs, s.log, s.log, s.batches);
    hide Step, Pieces;
    QuietKeepsChains(s, s');
  }

  lemma QuietKeepsChains<R>(s: State<R>, s': State<R>)
    requires OutsideLists(s, s') && ChainsOk(s.next, s.log, s.batches)
    requires Pieces(s.batches, |s.log|)
    ensures ChainsOk(s'.next, s'.log, s'.batches)
  {
  }

  lemma LinkKeepsBatches<R>(s: State<R>, t: nat, choice: Choice<R>)
    requires t < |s.pcs| && QueueOk(s) && LogOk(s.log, |s.records|) && OwnersOk(s) && BatchesOk(s)
    requires s.pcs[t].Locked?
    ensures BatchesOk(Step(s, t, choice))
  {
    var s' := Step(s, t, choice);
    LinkKeepsChains(At(s, t, Linked(s.pcs[t].item)), s.pcs[t].item);
    hide OwnersOk, LogOk, ChainsOk, CursorsOk, CommittersOk;
    KeepsCursors(s.pcs, s'.pcs, s.log, s'.log, s.batches);
  }

  lemma StepKeepsBatches<R>(s: State<R>, t: nat, choice: Choice<R>)
    requires t < |s.pcs| && QueueOk(s) && LogOk(s.log, |s.records|) && OwnersOk(s) && BatchesOk(s)
    ensures BatchesOk(Step(s, t, choice))
  {
    hide Step, QueueOk, LogOk, OwnersOk, Pieces, ChainsOk, CommittersOk;
    var pc := s.pcs[t];
    if Quiet(pc) {
      QuietKeepsBatches(s, t, choice);
    } else if pc.Locked? {
      LinkKeepsBatches(s, t, choice);
    } else if pc.Detaching? {
      DetachKeepsBatches(s, t, choice);
    } else if pc.first.None? {
      FinishKeepsBatches(s, t, choice);
    } else {
      DrainStep(s, t, choice);
      HandKeepsPieces(s, t, pc.batch, pc.first.value);
      HandKeepsChains(s, t, pc.batch, pc.first.value);
      HandKeepsCursors(s, t, pc.batch, pc.first.value);
    }
  }

  lemma StepKeepsLog<R>(s: State<R>, t: nat, choice: Choice<R>)
    requires t < |s.pcs| && LogOk(s.log, |s.records|) && OwnersOk(s)
    ensures LogOk(Step(s, t, choice).log, |Step(s, t, choice).records|)
  {
  }

  lemma LinkKeepsOwners<R>(s: State<R>, t: nat, choice: Choice<R>)
    requires t < |s.pcs| && OwnersOk(s) && QueueOk(s) && s.pcs[t].Locked?
    ensures OwnersOk(Step(s, t, choice))
  {
  }

  lemma HandKeepsOwners<R>(s: State<R>, t: nat, b: nat, item: nat)
    requires t < |s.pcs| && OwnersOk(s) && Next(s, b, item) && s.pcs[t].Draining?
    ensures OwnersOk(Handed(s, t, b, item))
  {
  }

  lemma QuietKeepsOwners<R>(s: State<R>, t: nat, choice: Choice<R>)
    requires t < |s.pcs| && LogOk(s.log, |s.records|) && OwnersOk(s) && Quiet(s.pcs[t])
    ensures OwnersOk(Step(s, t, choice))
  {
    assert forall p :: 0 <= p < |s.log| ==> s.log[p] < |s.records|;
    hide LogOk;
  }

  lemma StepKeepsOwners<R>(s: State<R>, t: nat, choice: Choice<R>)
    requires t < |s.pcs| && LogOk(s.log, |s.records|) && OwnersOk(s) && QueueOk(s) && BatchesOk(s)
    ensures OwnersOk(Step(s, t, choice))
  {
    hide Step, Handed, LogOk, QueueOk, BatchesOk;
    var pc := s.pcs[t];
    if Quiet(pc) {
      QuietKeepsOwners(s, t, choice);
    } else if pc.Locked? {
      LinkKeepsOwners(s, t, choice);
    } else if pc.Draining? && pc.first.Some? {
      DrainStep(s, t, choice);
      HandKeepsOwners(s, t, pc.batch, pc.first.value);
    } else {
      DetachKeepsOwners(s, t, choice);
    }
  }

  lemma DetachKeepsOwners<R>(s: State<R>, t: nat, choice: Choice<R>)
    requires t < |s.pcs| && OwnersOk(s)
    requires s.pcs[t].Detaching? || (s.pcs[t].Draining? && s.pcs[t].first.None?)
    ensures OwnersOk(Step(s, t, choice))
  {
  }

  // ---- No leak ------------------------------------------------------------------

  /** Linking allocates and frees nothing. */
  lemma LinkKeepsMemory<R>(s: State<R>, t: nat, choice: Choice<R>)
    requires t < |s.pcs| && s.pcs[t].Locked? && QueueOk(s)
    ensures var s', item := Step(s, t, choice), s.pcs[t].item;
      && s'.next.Keys == s.next.Keys && s'.batches == s.batches
      && s'.log == s.log + [item] && s'.pcs == s.pcs[t := Linked(item)]
  {
  }

  lemma LinkKeepsNoLeak<R>(s: State<R>, t: nat, choice: Choice<R>)
    requires t < |s.pcs| && s.pcs[t].Locked? && NoLeak(s) && OwnersOk(s) && QueueOk(s) && Pieces(s.batches, |s.log|)
    ensures NoLeak(Step(s, t, choice))
  {
    hide Step, OwnersOk, QueueOk, Waits;
    var s' := Step(s, t, choice);
    LinkKeepsMemory(s, t, choice);
    forall i | i in s'.next
      ensures Waits(s'.log, s'.batches, i) || exists u :: Owns(s'.pcs, u, i)
    {
      WaitsOn(s.log, s.batches, s.pcs[t].item, i);
      if i != s.pcs[t].item && !Waits(s.log, s.batches, i) {
        var u :| Owns(s.pcs, u, i);
        assert Owns(s'.pcs, u, i);
      }
    }
  }

  /** A linked item waits, and so does what waited before. */
  lemma WaitsOn(log: seq<nat>, batches: Batches, item: nat, i: nat)
    requires Pieces(batches, |log|)
    ensures i == item || Waits(log, batches, i) ==> Waits(log + [item], batches, i)
  {
    if Waits(log, batches, i) {
      var p :| 0 <= p < |log| && log[p] == i && !Gone(batches, p);
      assert (log + [item])[p] == i;
    }
    assert (log + [item])[|log|] == item && !Gone(batches, |log|);
  }

  lemma HandKeepsNoLeak<R>(s: State<R>, t: nat, b: nat, item: nat)
    requires t < |s.pcs| && NoLeak(s) && BatchesOk(s) && s.pcs[t].Draining?
    requires Next(s, b, item)
    ensures NoLeak(Handed(s, t, b, item))
  {
    var s' := Handed(s, t, b, item);
    var cur := s.batches.cursors[b];
    hide Pieces, ChainsOk, CursorsOk, CommittersOk;
    forall i | i in s'.next
      ensures Waits(s'.log, s'.batches, i) || exists u :: Owns(s'.pcs, u, i)
    {
      assert i in s.next && i != item;
      if Waits(s.log, s.batches, i) {
        var p :| 0 <= p < |s.log| && s.log[p] == i && !Gone(s.batches, p);
        assert p != cur;
        assert forall c :: 0 <= c < |s.batches.cursors| && s'.batches.marks[c] <= p < s'.batches.cursors[c] ==>
                             s.batches.marks[c] <= p < s.batches.cursors[c];
        assert !Gone(s'.batches, p);
      } else {
        var u :| Owns(s.pcs, u, i);
        assert Owns(s'.pcs, u, i);
      }
    }
  }

  /** Whoever owned an item still does, or gave it back. */
  lemma KeepsNoLeak<R>(s: State<R>, s': State<R>)
    requires NoLeak(s) && s'.log == s.log && |s'.pcs| == |s.pcs|
    requires forall p: nat :: Gone(s'.batches, p) ==> Gone(s.batches, p)
    requires forall i :: i in s'.next ==> i in s.next || exists t :: Owns(s'.pcs, t, i)
    requires forall t, i :: Owns(s.pcs, t, i) ==> Owns(s'.pcs, t, i) || i !in s'.next
    ensures NoLeak(s')
  {
  }

  /** Nothing is handed over, and at most a list is detached. */
  ghost predicate HandsNothing<R>(s: State<R>, s': State<R>) {
    && s'.handed == s.handed && s.log <= s'.log
    && (s'.batches == s.batches ||
        s'.batches == Detach(s.batches, |s.log|))
  }

  lemma OtherStep<R>(s: State<R>, t: nat, choice: Choice<R>)
    requires t < |s.pcs| && !(s.pcs[t].Draining? && s.pcs[t].first.Some?)
    ensures HandsNothing(s, Step(s, t, choice))
  {
  }

  /** A detached list starts with nothing handed over. */
  lemma SameGone<R>(s: State<R>, s': State<R>, p: nat)
    requires HandsNothing(s, s') && Gone(s'.batches, p)
    ensures Gone(s.batches, p)
  {
  }

  /** What a step does to the items and their owners, away from lists. */
  lemma OwnershipMoves<R>(s: State<R>, t: nat, choice: Choice<R>)
    requires t < |s.pcs| && !s.pcs[t].Locked? && !(s.pcs[t].Draining? && s.pcs[t].first.Some?)
    ensures var s' := Step(s, t, choice);
      && s'.log == s.log
      && (forall i :: i in s'.next ==> i in s.next || Owns(s'.pcs, t, i))
      && (forall i :: Owns(s.pcs, t, i) ==> Owns(s'.pcs, t, i) || i !in s'.next)
  {
  }

  lemma StepKeepsNoLeak<R>(s: State<R>, t: nat, choice: Choice<R>)
    requires t < |s.pcs| && NoLeak(s) && OwnersOk(s) && QueueOk(s) && BatchesOk(s)
    ensures NoLeak(Step(s, t, choice))
  {
    hide Step, NoLeak, OwnersOk, QueueOk, Gone, HasItem, HoldsLock, Handed, HandsNothing;
    var pc, s' := s.pcs[t], Step(s, t, choice);
    if pc.Locked? {
      LinkKeepsNoLeak(s, t, choice);
    } else if pc.Draining? && pc.first.Some? {
      DrainStep(s, t, choice);
      HandKeepsNoLeak(s, t, pc.batch, pc.first.value);
    } else {
      OtherStep(s, t, choice);
      OwnershipMoves(s, t, choice);
      OneMoves(s, t, choice);
      forall p: nat | Gone(s'.batches, p)
        ensures Gone(s.batches, p)
      {
        SameGone(s, s', p);
      }
      KeepsNoLeak(s, s');
    }
  }

  // ---- Hand-over ------------------------------------------------------------------

  lemma HandedByAppend(handed: seq<Handover>, b: nat, item: nat, c: nat)
    ensures HandedBy(handed + [Handover(b, item)], c) == HandedBy(handed, c) + if b == c then [item] else []
  {
  }

  lemma HandKeepsHanded<R>(s: State<R>, t: nat, b: nat, item: nat)
    requires t < |s.pcs| && HandedOk(s) && Pieces(s.batches, |s.log|) && Next(s, b, item)
    ensures HandedOk(Handed(s, t, b, item))
  {
    var s' := Handed(s, t, b, item);
    forall c | 0 <= c < |s'.batches.cursors|
      ensures ListHanded(s', c)
    {
      HandedByAppend(s.handed, b, item, c);
      assert ListHanded(s, c);
      hide Pieces, HandedBy, HandedOk;
    }
  }

  lemma {:induction false} NotYetHanded(handed: seq<Handover>, b: nat)
    requires forall h :: h in handed ==> h.batch != b
    ensures HandedBy(handed, b) == []
  {
    if handed != [] {
      assert handed[|handed| - 1] in handed;
      NotYetHanded(handed[..|handed| - 1], b);
    }
  }

  lemma StepKeepsHanded<R>(s: State<R>, t: nat, choice: Choice<R>)
    requires t < |s.pcs| && HandedOk(s) && BatchesOk(s)
    ensures HandedOk(Step(s, t, choice))
  {
    hide Step, HandedBy, Handed, HandsNothing, HandedOk, ChainsOk, CursorsOk, CommittersOk;
    var pc := s.pcs[t];
    if pc.Draining? && pc.first.Some? {
      DrainStep(s, t, choice);
      HandKeepsHanded(s, t, pc.batch, pc.first.value);
    } else {
      OtherStep(s, t, choice);
      HandsNothingKeeps(s, Step(s, t, choice));
    }
  }

  lemma HandsNothingKeeps<R>(s: State<R>, s': State<R>)
    requires HandedOk(s) && HandsNothing(s, s') && Pieces(s.batches, |s.log|)
    ensures HandedOk(s')
  {
    NotYetHanded(s.handed, |s.batches.cursors|);
    hide HandedBy;
    forall c | 0 <= c < |s'.batches.cursors|
      ensures ListHanded(s', c)
    {
      if c < |s.batches.cursors| {
        assert ListHanded(s, c);
      }
    }
  }

  // ---- Whole runs -------------------------------------------------------------------

  lemma {:induction false} RunKeepsInv<R>(s: State<R>, events: seq<Event<R>>)
    requires Inv(s)
    ensures Inv(Run(s, events))
  {
    if events != [] {
      var event := events[|events| - 1];
      RunKeepsInv(s, events[..|events| - 1]);
      var before := Run(s, events[..|events| - 1]);
      if event.thread < |before.pcs| {
        StepKeepsInv(before, event.thread, event.choice);
      }
    }
  }

  lemma StepKeepsInv<R>(s: State<R>, t: nat, choice: Choice<R>)
    requires t < |s.pcs| && Inv(s)
    ensures Inv(Step(s, t, choice))
  {
    hide Step, LockOk, CountOk, QueueOk, BatchesOk, LogOk, OwnersOk, NoLeak, AddedOk, HandedOk;
    StepKeepsLock(s, t, choice);
    StepKeepsCount(s, t, choice);
    StepKeepsQueue(s, t, choice);
    StepKeepsBatches(s, t, choice);
    StepKeepsLog(s, t, choice);
    StepKeepsOwners(s, t, choice);
    StepKeepsNoLeak(s, t, choice);
    StepKeepsHanded(s, t, choice);
  }

  lemma InitialInv<R>(capacity: nat, adders: nat, threads: nat)
    ensures Inv(Initial<R>(capacity, adders, threads))
  {
  }

  /** Whenever the lock is free, count is the length of the list, the list runs
      from head to tail over allocated items, and it holds what was added and
      not yet detached, in the order of the adds. */
  lemma FreeLock<R>(capacity: nat, adders: nat, threads: nat, events: seq<Event<R>>)
    ensures var s := Run(Initial<R>(capacity, adders, threads), events);
      s.lock == None ==> IsQueue(s)
  {
    hide BatchesOk, LogOk, OwnersOk, NoLeak, HandedOk, LockOk, Run, Chain;
    InitialInv<R>(capacity, adders, threads);
    RunKeepsInv(Initial<R>(capacity, adders, threads), events);
    var s := Run(Initial<R>(capacity, adders, threads), events);
    assert s.added + [] == s.added;
  }

  /** count, head, tail and the links of the queue. */
  ghost predicate IsQueue<R>(s: State<R>) {
    var start, end := Start(s.batches), |s.added|;
    && start <= end && s.count == end - start
    && s.head == ItemAt(s.added, start, end)
    && s.tail == (if start < end then Some(s.added[end - 1]) else None)
    && Chain(s.next, s.added, start, end)
  }

  /** Some thread can always go on: the protocol does not deadlock, and no step
      touches an item that is not allocated. */
  lemma NoDeadlock<R>(s: State<R>, t: nat)
    requires Inv(s) && t < |s.pcs| && !s.pcs[t].Idle?
    ensures exists u :: 0 <= u < |s.pcs| && Step(s, u, Proceed(true)) != s
  {
    if s.lock.Some? {
      CanGoOn(s, s.lock.value);
    } else {
      CanGoOn(s, t);
    }
  }

  lemma CanGoOn<R>(s: State<R>, t: nat)
    requires t < |s.pcs| && !s.pcs[t].Idle? && BatchesOk(s) && (s.lock == None || HoldsLock(s.pcs[t]))
    ensures Step(s, t, Proceed(true)) != s
  {
  }

  // ---- Exactly once ------------------------------------------------------------------

  function Items(handed: seq<Handover>): seq<nat> {
    seq(|handed|, i requires 0 <= i < |handed| => handed[i].item)
  }

  ghost function AllHanded(handed: seq<Handover>, n: nat): multiset<nat> {
    if n == 0 then multiset{} else AllHanded(handed, n - 1) + multiset(HandedBy(handed, n - 1))
  }

  lemma {:induction false} HandedAppend(handed: seq<Handover>, b: nat, item: nat, n: nat)
    ensures AllHanded(handed + [Handover(b, item)], n) ==
            AllHanded(handed, n) + if b < n then multiset{item} else multiset{}
  {
    if n > 0 {
      HandedAppend(handed, b, item, n - 1);
      HandedByAppend(handed, b, item, n - 1);
    }
  }

  lemma {:induction false} NothingHanded(n: nat)
    ensures AllHanded([], n) == multiset{}
  {
    if n > 0 {
      NothingHanded(n - 1);
    }
  }

  lemma {:induction false} HandedByBatch(handed: seq<Handover>, n: nat)
    requires forall h :: h in handed ==> h.batch < n
    ensures multiset(Items(handed)) == AllHanded(handed, n)
  {
    if handed == [] {
      NothingHanded(n);
    } else {
      var last := |handed| - 1;
      var h := handed[last];
      assert h in handed && handed == handed[..last] + [Handover(h.batch, h.item)];
      HandedByBatch(handed[..last], n);
      HandedAppend(handed[..last], h.batch, h.item, n);
      assert Items(handed) == Items(handed[..last]) + [h.item];
    }
  }

  /** The items of the first n lists that are detached and not handed over. */
  ghost function StillDetached(log: seq<nat>, batches: Batches, n: nat): multiset<nat>
    requires n <= |batches.cursors| && Pieces(batches, |log|)
  {
    if n == 0 then multiset{}
    else
      Apart(batches, |log|, n - 1, n - 1);
      StillDetached(log, batches, n - 1) + multiset(log[batches.cursors[n - 1]..batches.marks[n]])
  }

  lemma {:induction false} ListsAddUp<R>(s: State<R>, n: nat)
    requires n <= |s.batches.cursors| && Pieces(s.batches, |s.log|) && HandedOk(s)
    ensures 0 <= s.batches.marks[n] <= |s.log|
    ensures AllHanded(s.handed, n) + StillDetached(s.log, s.batches, n) == multiset(s.log[..s.batches.marks[n]])
  {
    if n > 0 {
      hide HandedOk, HandedBy, AllHanded;
      ListsAddUp(s, n - 1);
      Apart(s.batches, |s.log|, n - 1, n - 1);
      OneList(s, n);
      ThreeParts(s.log, s.batches.marks[n - 1], s.batches.cursors[n - 1], s.batches.marks[n]);
      hide *;
    } else {
      assert s.log[..0] == [];
    }
  }

  lemma OneList<R>(s: State<R>, n: nat)
    requires 0 < n <= |s.batches.cursors| && HandedOk(s)
    ensures s.batches.marks[n - 1] <= s.batches.cursors[n - 1] <= |s.log|
    ensures AllHanded(s.handed, n) ==
            AllHanded(s.handed, n - 1) + multiset(s.log[s.batches.marks[n - 1]..s.batches.cursors[n - 1]])
  {
    assert ListHanded(s, n - 1);
  }

  lemma ThreeParts(log: seq<nat>, lo: nat, cur: nat, hi: nat)
    requires lo <= cur <= hi <= |log|
    ensures multiset(log[..hi]) == multiset(log[..lo]) + multiset(log[lo..cur]) + multiset(log[cur..hi])
  {
    assert log[..hi] == log[..lo] + log[lo..cur] + log[cur..hi];
  }

  function RecordOf<R>(records: seq<R>, item: nat): Option<R> {
    if item < |records| then Some(records[item]) else None
  }

  function RecordsOf<R>(records: seq<R>, items: seq<nat>): seq<Option<R>> {
    seq(|items|, k requires 0 <= k < |items| => RecordOf(records, items[k]))
  }

  /** In every reachable state the adds that succeeded, with the one about to
      return, are the items handed to the registry, those of the lists detached
      by a commit in progress, and those still queued. */
  lemma Conservation<R>(s: State<R>)
    requires Inv(s)
    ensures Pieces(s.batches, |s.log|)
    ensures multiset(s.added) + multiset(Returning(s)) ==
            multiset(Items(s.handed)) + StillDetached(s.log, s.batches, |s.batches.cursors|)
              + multiset(s.log[Start(s.batches)..])
  {
    hide LockOk, CountOk, QueueOk, LogOk, OwnersOk, NoLeak, Pieces, ChainsOk, CursorsOk, CommittersOk, ListHanded;
    hide StillDetached, AllHanded, Items, Returning;
    var start := Start(s.batches);
    HandedByBatch(s.handed, |s.batches.cursors|);
    ListsAddUp(s, |s.batches.cursors|);
    assert s.log == s.log[..start] + s.log[start..];
    assert multiset(s.log) == multiset(s.added) + multiset(Returning(s));
  }

  ghost predicate Quiescent<R>(s: State<R>) {
    forall t :: 0 <= t < |s.pcs| ==> s.pcs[t].Idle?
  }

  /** When all threads are done, every item whose add succeeded was handed to the
      registry exactly once or is still queued, and the queued items are the only
      ones allocated. */
  lemma ItemsAddUp<R>(capacity: nat, adders: nat, threads: nat, events: seq<Event<R>>)
    ensures var s := Run(Initial<R>(capacity, adders, threads), events);
      Quiescent(s) ==>
        && Start(s.batches) <= |s.added|
        && var queued := s.added[Start(s.batches)..];
        && multiset(s.added) == multiset(Items(s.handed) + queued)
        && (forall i :: i in s.added ==> i < |s.records|)
        && multiset(RecordsOf(s.records, s.added)) == multiset(RecordsOf(s.records, Items(s.handed) + queued))
        && (forall i :: i in s.next <==> i in queued)
  {
    hide Run, Initial, Inv, Items, Quiescent, RecordsOf, Start;
    InitialInv<R>(capacity, adders, threads);
    RunKeepsInv(Initial<R>(capacity, adders, threads), events);
    var s := Run(Initial<R>(capacity, adders, threads), events);
    if Quiescent(s) {
      WhenQuiescent(s);
      RecordsAddUp(s.records, s.added, Items(s.handed) + s.added[Start(s.batches)..]);
    }
  }

  lemma WhenQuiescent<R>(s: State<R>)
    requires Inv(s) && Quiescent(s)
    ensures Start(s.batches) <= |s.added|
    ensures multiset(s.added) == multiset(Items(s.handed) + s.added[Start(s.batches)..])
    ensures forall i :: i in s.added ==> i < |s.records|
    ensures forall i :: i in s.next <==> i in s.added[Start(s.batches)..]
  {
    hide HandedOk, LogOk, NoLeak, LockOk, ChainsOk, CursorsOk, Items, StillDetached, Waits;
    NothingReturning(s);
    NothingUnfinished(s);
    Conservation(s);
    NothingDetached(s.log, s.batches, |s.batches.cursors|);
    OnlyQueuedIsAllocated(s);
    LogIsRecorded(s);
    hide *;
    AddsUp(s.added, Items(s.handed), s.added[Start(s.batches)..], StillDetached(s.log, s.batches, |s.batches.cursors|));
  }

  lemma NothingReturning<R>(s: State<R>)
    requires Quiescent(s) && AddedOk(s)
    ensures Returning(s) == [] && s.log == s.added
  {
  }

  lemma NothingUnfinished<R>(s: State<R>)
    requires Quiescent(s) && CommittersOk(s.pcs, s.batches)
    ensures forall b :: !Unfinished(s.batches, b)
  {
  }

  lemma LogIsRecorded<R>(s: State<R>)
    requires LogOk(s.log, |s.records|)
    ensures forall i :: i in s.log ==> i < |s.records|
  {
  }

  lemma AddsUp(added: seq<nat>, handed: seq<nat>, queued: seq<nat>, detached: multiset<nat>)
    requires multiset(added) + multiset([]) == multiset(handed) + detached + multiset(queued)
    requires detached == multiset{}
    ensures multiset(added) == multiset(handed + queued)
  {
    var a, h, q := multiset(added), multiset(handed), multiset(queued);
    assert a + multiset([]) == a && h + detached + q == h + q;
    assert multiset(handed + queued) == h + q;
  }

  lemma OnlyQueuedIsAllocated<R>(s: State<R>)
    requires NoLeak(s) && QueueOk(s) && Quiescent(s) && Pieces(s.batches, |s.log|)
    requires forall b :: !Unfinished(s.batches, b)
    ensures forall i :: i in s.next <==> i in s.log[Start(s.batches)..]
  {
    assert Start(s.batches) <= |s.log|;
    hide *;
    forall i
      ensures i in s.next <==> i in s.log[Start(s.batches)..]
    {
      if i in s.next {
        AllocatedIsQueued(s, i);
      }
      if i in s.log[Start(s.batches)..] {
        QueuedIsAllocated(s, i);
      }
    }
  }

  lemma AllocatedIsQueued<R>(s: State<R>, i: nat)
    requires NoLeak(s) && Quiescent(s) && Pieces(s.batches, |s.log|) && i in s.next
    requires forall b :: !Unfinished(s.batches, b)
    ensures i in s.log[Start(s.batches)..]
  {
    assert Waits(s.log, s.batches, i);
    var p: nat :| p < |s.log| && s.log[p] == i && !Gone(s.batches, p);
    hide NoLeak, Quiescent, Waits;
    if p < Start(s.batches) {
      InSomeList(s.batches, |s.log|, |s.batches.cursors|, p);
    }
    assert s.log[Start(s.batches)..][p - Start(s.batches)] == i;
  }

  lemma QueuedIsAllocated<R>(s: State<R>, i: nat)
    requires QueueOk(s) && i in s.log[Start(s.batches)..]
    ensures i in s.next
  {
    var q: nat :| q < |s.log| - Start(s.batches) && s.log[Start(s.batches)..][q] == i;
    assert s.log[Start(s.batches) + q] == i;
  }

  lemma {:induction false} NothingDetached(log: seq<nat>, batches: Batches, n: nat)
    requires n <= |batches.cursors| && Pieces(batches, |log|) && forall b :: !Unfinished(batches, b)
    ensures StillDetached(log, batches, n) == multiset{}
  {
    if n > 0 {
      NothingDetached(log, batches, n - 1);
      Apart(batches, |log|, n - 1, n - 1);
      assert !Unfinished(batches, n - 1);
    }
  }

  lemma {:induction false} InSomeList(batches: Batches, total: nat, n: nat, p: nat)
    requires n <= |batches.cursors| && Pieces(batches, total) && p < batches.marks[n]
    requires forall b :: !Unfinished(batches, b)
    ensures Gone(batches, p)
  {
    assert n > 0;
    Apart(batches, total, n - 1, n - 1);
    assert !Unfinished(batches, n - 1);
    if p < batches.marks[n - 1] {
      InSomeList(batches, total, n - 1, p);
    }
  }

  lemma Cancel(o: multiset<nat>, x: multiset<nat>, y: multiset<nat>)
    requires o + x == o + y
    ensures x == y
  {
    forall i
      ensures x[i] == y[i]
    {
      assert (o + x)[i] == (o + y)[i];
    }
  }

  lemma SameRest(one: seq<nat>, rest: seq<nat>, before: seq<nat>, after: seq<nat>)
    requires multiset(one + rest) == multiset(before + one + after)
    ensures multiset(rest) == multiset(before + after)
  {
    var o, b, a := multiset(one), multiset(before), multiset(after);
    assert multiset(one + rest) == o + multiset(rest);
    assert multiset(before + one + after) == multiset(before + one) + a == b + o + a;
    assert multiset(before + after) == b + a;
    assert b + o + a == o + (b + a);
    Cancel(o, multiset(rest), multiset(before + after));
  }

  lemma {:induction false} RecordsAddUp<R>(records: seq<R>, a: seq<nat>, b: seq<nat>)
    requires multiset(a) == multiset(b)
    ensures multiset(RecordsOf(records, a)) == multiset(RecordsOf(records, b))
  {
    if a == [] {
      assert |multiset(b)| == 0;
      assert b == [];
    } else {
      assert a[0] in multiset(b);
      var k :| 0 <= k < |b| && b[k] == a[0];
      var one, rest, before, after := [a[0]], a[1..], b[..k], b[k + 1..];
      assert b == before + one + after && a == one + rest;
      SameRest(one, rest, before, after);
      RecordsAddUp(records, rest, before + after);
      RecordsSplit(records, one, rest, before, after);
    }
  }

  lemma RecordsSplit<R>(records: seq<R>, one: seq<nat>, rest: seq<nat>, before: seq<nat>, after: seq<nat>)
    requires multiset(RecordsOf(records, rest)) == multiset(RecordsOf(records, before + after))
    ensures multiset(RecordsOf(records, one + rest)) == multiset(RecordsOf(records, before + one + after))
  {
    var o, b, a := RecordsOf(records, one), RecordsOf(records, before), RecordsOf(records, after);
    assert RecordsOf(records, one + rest) == o + RecordsOf(records, rest);
    assert RecordsOf(records, before + after) == b + a;
    assert RecordsOf(records, before + one + after) == b + o + a;
  }
}
