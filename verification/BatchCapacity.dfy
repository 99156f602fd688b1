/** How far a batch context can run over its capacity: the check comes before
    the lock, so every adder but one may overtake it. */
module BatchCapacity {
  import opened Status
  import opened BatchProtocol

  /** Past the capacity check, and not counted yet. */
  predicate InFlight<R>(pc: Pc<R>) {
    pc.Cleared? || pc.Locked? || pc.Linked?
  }

  function Overtaking<R>(pcs: seq<Pc<R>>, n: nat): (k: nat)
    requires n <= |pcs|
    ensures k <= n
  {
    if n == 0 then 0 else Overtaking(pcs, n - 1) + if InFlight(pcs[n - 1]) then 1 else 0
  }

  lemma {:induction false} OneChanges<R>(pcs: seq<Pc<R>>, n: nat, t: nat, pc: Pc<R>)
    requires n <= |pcs| && t < |pcs|
    ensures Overtaking(pcs[t := pc], n) + (if t < n && InFlight(pcs[t]) then 1 else 0) ==
            Overtaking(pcs, n) + (if t < n && InFlight(pc) then 1 else 0)
  {
    if n > 0 {
      OneChanges(pcs, n - 1, t, pc);
    }
  }

  lemma {:induction false} SomeOvertake<R>(pcs: seq<Pc<R>>, n: nat, t: nat)
    requires t < n <= |pcs| && InFlight(pcs[t])
    ensures Overtaking(pcs, n) >= 1
  {
    if t < n - 1 {
      SomeOvertake(pcs, n - 1, t);
    }
  }

  predicate Adds<R>(pc: Pc<R>) {
    pc.Entering? || pc.Allocating? || pc.Filled? || InFlight(pc) || pc.Counted?
  }

  ghost predicate Bounded<R>(s: State<R>) {
    && 1 <= s.capacity && s.adders <= |s.pcs|
    && (forall t :: s.adders <= t < |s.pcs| ==> !Adds(s.pcs[t]))
    && s.count + Overtaking(s.pcs, s.adders) <= s.capacity + s.adders - 1
  }

  lemma StepKeepsBounded<R>(s: State<R>, t: nat, choice: Choice<R>)
    requires t < |s.pcs| && Bounded(s)
    ensures Bounded(Step(s, t, choice)) && SameParameters(s, Step(s, t, choice))
  {
    OneMoves(s, t, choice);
    OneChanges(s.pcs, s.adders, t, Go(s, t, choice));
    hide Overtaking;
  }

  ghost predicate SameParameters<R>(s: State<R>, s': State<R>) {
    s'.capacity == s.capacity && s'.adders == s.adders && |s'.pcs| == |s.pcs|
  }

  lemma {:induction false} RunKeepsBounded<R>(s: State<R>, events: seq<Event<R>>)
    requires Bounded(s)
    ensures Bounded(Run(s, events)) && SameParameters(s, Run(s, events))
  {
    if events != [] {
      var event := events[|events| - 1];
      RunKeepsBounded(s, events[..|events| - 1]);
      var before := Run(s, events[..|events| - 1]);
      hide Bounded, Step;
      if event.thread < |before.pcs| {
        StepKeepsBounded(before, event.thread, event.choice);
      }
    }
  }

  lemma {:induction false} NobodyOvertakes<R>(threads: nat, n: nat)
    requires n <= threads
    ensures Overtaking<R>(seq(threads, _ => Idle), n) == 0
  {
    if n > 0 {
      NobodyOvertakes<R>(threads, n - 1);
    }
  }

  /** With A adding threads neither count nor the list ever exceeds
      capacity + A - 1; with one, never the capacity. */
  lemma Overshoot<R>(capacity: nat, adders: nat, threads: nat, events: seq<Event<R>>)
    requires 1 <= capacity && adders <= threads
    ensures var s := Run(Initial<R>(capacity, adders, threads), events);
      && s.count <= capacity + adders - 1
      && QueueLength(s) <= capacity + adders - 1
      && (adders == 1 ==> s.count <= capacity && QueueLength(s) <= capacity)
  {
    var start := Initial<R>(capacity, adders, threads);
    NobodyOvertakes<R>(threads, adders);
    RunKeepsBounded(start, events);
    InitialInv<R>(capacity, adders, threads);
    RunKeepsInv(start, events);
    var s := Run(start, events);
    hide Run, QueueOk, BatchesOk, LogOk, OwnersOk, NoLeak, AddedOk, HandedOk, Overtaking;
    if s.lock.Some? && s.pcs[s.lock.value].Linked? {
      assert s.lock.value < s.adders;
      SomeOvertake(s.pcs, s.adders, s.lock.value);
    }
  }

  // ---- The bound is reached -------------------------------------------------------

  function Four<R>(t: nat, a: Choice<R>, b: Choice<R>, c: Choice<R>, d: Choice<R>): seq<Event<R>> {
    [Event(t, a)] + [Event(t, b)] + [Event(t, c)] + [Event(t, d)]
  }

  /** Thread t from its call to the other side of the capacity checks. */
  function Enter<R>(t: nat, r: R): seq<Event<R>> {
    Four(t, Add(r), Proceed(true), Proceed(true), Proceed(true))
  }

  /** Thread t through the critical section. */
  function Leave<R>(t: nat): seq<Event<R>> {
    Four(t, Proceed(true), Proceed(true), Proceed(true), Proceed(true))
  }

  lemma {:induction false} RunOn<R>(s: State<R>, a: seq<Event<R>>, b: seq<Event<R>>)
    ensures Run(s, a + b) == Run(Run(s, a), b)
  {
    if b == [] {
      assert a + b == a;
    } else {
      RunOn(s, a, b[..|b| - 1]);
      assert (a + b)[..|a + b| - 1] == a + b[..|b| - 1];
    }
  }

  lemma RunThen<R>(s: State<R>, events: seq<Event<R>>, t: nat, choice: Choice<R>)
    requires t < |Run(s, events).pcs|
    ensures Run(s, events + [Event(t, choice)]) == Step(Run(s, events), t, choice)
  {
  }

  /** The first k threads stand before the lock, the others are idle. */
  ghost predicate Gathered<R>(s: State<R>, n: nat, k: nat) {
    && k <= s.adders <= |s.pcs| && s.lock == None && s.count == n
    && (forall t :: 0 <= t < k ==> s.pcs[t].Cleared?)
    && (forall t :: k <= t < |s.pcs| ==> s.pcs[t].Idle?)
  }

  /** From s to s' only thread t moved; the lock and the count are as given. */
  ghost predicate Moved<R>(s: State<R>, s': State<R>, t: nat, pc: Pc<R>, lock: Option<nat>, count: nat) {
    && SameParameters(s, s') && t < |s.pcs| && s'.pcs == s.pcs[t := pc]
    && s'.lock == lock && s'.count == count
  }

  lemma OneStep<R>(s: State<R>, t: nat, choice: Choice<R>)
    requires t < |s.pcs|
    ensures Moved(s, Step(s, t, choice), t, Go(s, t, choice), Act(s, t, choice).lock, Act(s, t, choice).count)
  {
    hide Go;
  }

  lemma EnterOne<R>(s: State<R>, n: nat, k: nat, r: R)
    requires Gathered(s, n, k) && k < s.adders && n < s.capacity
    ensures Gathered(Run(s, Enter(k, r)), n, k + 1) && SameParameters(s, Run(s, Enter(k, r)))
  {
    var go: Choice<R> := Proceed(true);
    RunFour(s, k, Add(r), go, go, go);
    hide Run, Step, Moved;
    OneStep(s, k, Add(r));
    var s1 := Step(s, k, Add(r));
    NextStep(s, s1, k, Entering(r), None, n, go);
    var s2 := Step(s1, k, go);
    NextStep(s, s2, k, Allocating(r), None, n, go);
    var s3 := Step(s2, k, go);
    NextStep(s, s3, k, Filled(|s2.records|), None, n, go);
    OneMoreGathered(s, Step(s3, k, go), n, k, |s2.records|);
  }

  lemma OneMoreGathered<R>(s: State<R>, s': State<R>, n: nat, k: nat, item: nat)
    requires Gathered(s, n, k) && k < s.adders && Moved(s, s', k, Cleared(item), None, n)
    ensures Gathered(s', n, k + 1) && SameParameters(s, s')
  {
  }

  /** A step of thread t when the state differs from s in t, the lock and the count only. */
  lemma NextStep<R>(s: State<R>, s1: State<R>, t: nat, pc: Pc<R>, lock: Option<nat>, count: nat, choice: Choice<R>)
    requires Moved(s, s1, t, pc, lock, count)
    ensures t < |s1.pcs| && s1.pcs[t] == pc && s1.lock == lock && s1.count == count && s1.capacity == s.capacity
    ensures Moved(s, Step(s1, t, choice), t, Go(s1, t, choice), Act(s1, t, choice).lock, Act(s1, t, choice).count)
  {
    hide Go, Act, Step;
    OneStep(s1, t, choice);
  }

  lemma LeaveOne<R>(s: State<R>, n: nat, k: nat)
    requires Gathered(s, n, k) && k > 0
    ensures Gathered(Run(s, Leave(k - 1)), n + 1, k - 1) && SameParameters(s, Run(s, Leave(k - 1)))
  {
    var t: nat, go: Choice<R> := k - 1, Proceed(true);
    var item := s.pcs[t].item;
    RunFour(s, t, go, go, go, go);
    hide Run, Step, Moved, Link;
    OneStep(s, t, go);
    var s1 := Step(s, t, go);
    NextStep(s, s1, t, Locked(item), Some(t), n, go);
    LinkKeepsLock(s1, item);
    var s2 := Step(s1, t, go);
    NextStep(s, s2, t, Linked(item), Some(t), n, go);
    var s3 := Step(s2, t, go);
    NextStep(s, s3, t, Counted(item), Some(t), n + 1, go);
    OneLessGathered(s, Step(s3, t, go), n, k);
  }

  lemma LinkKeepsLock<R>(s: State<R>, item: nat)
    ensures Link(s, item).lock == s.lock && Link(s, item).count == s.count
  {
  }

  lemma OneLessGathered<R>(s: State<R>, s': State<R>, n: nat, k: nat)
    requires Gathered(s, n, k) && k > 0 && Moved(s, s', k - 1, Idle, None, n + 1)
    ensures Gathered(s', n + 1, k - 1) && SameParameters(s, s')
  {
  }

  lemma StepLength<R>(s: State<R>, t: nat, choice: Choice<R>)
    requires t < |s.pcs|
    ensures |Step(s, t, choice).pcs| == |s.pcs|
  {
  }

  lemma RunFirst<R>(s: State<R>, t: nat, choice: Choice<R>)
    requires t < |s.pcs|
    ensures Run(s, [Event(t, choice)]) == Step(s, t, choice)
  {
  }

  lemma RunFour<R>(s: State<R>, t: nat, a: Choice<R>, b: Choice<R>, c: Choice<R>, d: Choice<R>)
    requires t < |s.pcs|
    ensures Run(s, Four(t, a, b, c, d)) == StepFour(s, t, a, b, c, d)
  {
    hide Run, Step;
    RunFirst(s, t, a);
    StepLength(s, t, a);
    var s1 := Step(s, t, a);
    StepLength(s1, t, b);
    var s2 := Step(s1, t, b);
    StepLength(s2, t, c);
    RunThen(s, [Event(t, a)], t, b);
    RunThen(s, [Event(t, a)] + [Event(t, b)], t, c);
    RunThen(s, [Event(t, a)] + [Event(t, b)] + [Event(t, c)], t, d);
  }

  function StepFour<R>(s: State<R>, t: nat, a: Choice<R>, b: Choice<R>, c: Choice<R>, d: Choice<R>): State<R>
    requires t < |s.pcs|
  {
    var s1 := Step(s, t, a);
    var s2 := Step(s1, t, b);
    var s3 := Step(s2, t, c);
    Step(s3, t, d)
  }

  /** Thread 0 adds one record from beginning to end. */
  lemma AddOne<R>(s: State<R>, n: nat, r: R)
    requires Gathered(s, n, 0) && 0 < s.adders && n < s.capacity
    ensures Gathered(Run(s, Enter(0, r) + Leave(0)), n + 1, 0)
    ensures SameParameters(s, Run(s, Enter(0, r) + Leave(0)))
  {
    hide Gathered, Run, Enter, Leave;
    EnterOne(s, n, 0, r);
    LeaveOne(Run(s, Enter(0, r)), n, 1);
    RunOn(s, Enter(0, r), Leave(0));
  }

  /** Thread 0 adds n records, one after the other. */
  lemma {:induction false} Fill<R>(s: State<R>, n: nat, r: R) returns (events: seq<Event<R>>)
    requires Gathered(s, 0, 0) && 0 < s.adders && n <= s.capacity
    ensures Gathered(Run(s, events), n, 0) && SameParameters(s, Run(s, events))
  {
    if n == 0 {
      events := [];
    } else {
      hide Gathered, Run, Enter, Leave;
      var before := Fill(s, n - 1, r);
      AddOne(Run(s, before), n - 1, r);
      RunOn(s, before, Enter(0, r) + Leave(0));
      events := before + (Enter(0, r) + Leave(0));
    }
  }

  lemma {:induction false} EnterAll<R>(s: State<R>, n: nat, k: nat, r: R) returns (events: seq<Event<R>>)
    requires Gathered(s, n, 0) && k <= s.adders && n < s.capacity
    ensures Gathered(Run(s, events), n, k) && SameParameters(s, Run(s, events))
  {
    if k == 0 {
      events := [];
    } else {
      var before := EnterAll(s, n, k - 1, r);
      EnterOne(Run(s, before), n, k - 1, r);
      RunOn(s, before, Enter(k - 1, r));
      events := before + Enter(k - 1, r);
    }
  }

  lemma {:induction false} LeaveAll<R>(s: State<R>, n: nat, k: nat) returns (events: seq<Event<R>>)
    requires Gathered(s, n, k)
    ensures Gathered(Run(s, events), n + k, 0) && SameParameters(s, Run(s, events))
    decreases k
  {
    if k == 0 {
      events := [];
    } else {
      LeaveOne(s, n, k);
      var rest := LeaveAll(Run(s, Leave(k - 1)), n + 1, k - 1);
      RunOn(s, Leave(k - 1), rest);
      events := Leave(k - 1) + rest;
    }
  }

  lemma GatheredIsDone<R>(s: State<R>, n: nat)
    requires Gathered(s, n, 0)
    ensures s.count == n && Quiescent(s)
  {
  }

  /** Overshoot is exact: some interleaving ends with capacity + A - 1 records in
      the list and every thread done. */
  lemma OvershootReached<R>(capacity: nat, adders: nat, threads: nat, r: R)
    requires 1 <= capacity && 1 <= adders <= threads
    ensures exists events ::
      var s := Run(Initial<R>(capacity, adders, threads), events);
      s.count == capacity + adders - 1 && Quiescent(s)
  {
    var start := Initial<R>(capacity, adders, threads);
    var filling := Fill(start, capacity - 1, r);
    var full := Run(start, filling);
    var entering := EnterAll(full, capacity - 1, adders, r);
    var leaving := LeaveAll(Run(full, entering), capacity - 1, adders);
    hide Gathered, Initial;
    RunOn(start, filling, entering);
    RunOn(start, filling + entering, leaving);
    var events := filling + entering + leaving;
    GatheredIsDone(Run(start, events), capacity - 1 + adders);
  }
}
