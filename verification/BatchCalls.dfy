/** Which call each record comes from: exactly-once delivery in terms of the
    schedule alone. */
module BatchCalls {
  import opened Status
  import opened BatchProtocol

  /** The state after the first n events. */
  ghost function After<R>(s: State<R>, events: seq<Event<R>>, n: nat): State<R>
    requires n <= |events|
  {
    Run(s, events[..n])
  }

  /** Event n is an add called by a thread that was idle. */
  ghost predicate Calls<R>(s: State<R>, events: seq<Event<R>>, n: nat) {
    && n < |events| && events[n].choice.Add?
    && events[n].thread < |After(s, events, n).pcs|
    && After(s, events, n).pcs[events[n].thread].Idle?
    && events[n].thread < s.adders
  }

  /** The call at n is still under way, up to m. */
  ghost predicate Under<R>(s: State<R>, events: seq<Event<R>>, n: nat, m: nat) {
    && Calls(s, events, n) && n < m <= |events|
    && forall k :: n < k <= m ==>
         events[n].thread < |After(s, events, k).pcs| && !After(s, events, k).pcs[events[n].thread].Idle?
  }

  /** The call at n returns success with event m. */
  ghost predicate Succeeds<R>(s: State<R>, events: seq<Event<R>>, n: nat, m: nat) {
    && Under(s, events, n, m) && m < |events| && events[m].thread == events[n].thread
    && After(s, events, m).pcs[events[n].thread].Counted?
  }

  ghost predicate Returns<R>(s: State<R>, events: seq<Event<R>>, n: nat) {
    exists m: nat :: Succeeds(s, events, n, m)
  }

  /** The calls of a run: `current` that of each busy adder, `made` that of each
      item, `returned` those that returned success, in the order they did. */
  datatype Trail = Trail(current: map<nat, nat>, made: seq<nat>, returned: seq<nat>)

  ghost function TrailOf<R>(s: State<R>, events: seq<Event<R>>): Trail {
    if events == [] then Trail(map[], [], [])
    else
      var n := |events| - 1;
      Follow(Run(s, events[..n]), TrailOf(s, events[..n]), events[n], n)
  }

  ghost function Follow<R>(before: State<R>, trail: Trail, event: Event<R>, n: nat): Trail {
    var t := event.thread;
    if t >= |before.pcs| then trail
    else
      match before.pcs[t]
      case Idle =>
        if event.choice.Add? && t < before.adders then trail.(current := trail.current[t := n]) else trail
      case Allocating(_) =>
        if event.choice == Proceed(true) && t in trail.current
        then trail.(made := trail.made + [trail.current[t]]) else trail
      case Counted(_) =>
        if t in trail.current then trail.(returned := trail.returned + [trail.current[t]]) else trail
      case _ => trail
  }

  predicate BeforeItem<R>(pc: Pc<R>) { pc.Entering? || pc.Allocating? }

  predicate WithItem<R>(pc: Pc<R>) { HasItem(pc) || pc.Linked? || pc.Counted? }

  predicate Adding<R>(pc: Pc<R>) { BeforeItem(pc) || WithItem(pc) }

  /** Each record is that of the call its item was made by. */
  ghost predicate MadeOk<R>(s: State<R>, events: seq<Event<R>>, trail: Trail) {
    && |trail.made| == |s.records|
    && (forall i :: 0 <= i < |trail.made| ==>
          trail.made[i] < |events| && events[trail.made[i]].choice == Add(s.records[i]))
    && (forall i, j :: 0 <= i < j < |trail.made| ==> trail.made[i] != trail.made[j])
  }

  /** Each busy adder serves a call of its own. */
  ghost predicate ServesOk<R>(s: State<R>, events: seq<Event<R>>, trail: Trail) {
    forall t :: 0 <= t < |s.pcs| && Adding(s.pcs[t]) ==> Serves(s.pcs[t], t, events, trail)
  }

  ghost predicate Serves<R>(pc: Pc<R>, t: nat, events: seq<Event<R>>, trail: Trail)
    requires Adding(pc)
  {
    && t in trail.current && trail.current[t] < |events|
    && events[trail.current[t]].thread == t && events[trail.current[t]].choice.Add?
    && (BeforeItem(pc) ==>
          events[trail.current[t]].choice.record == pc.record && trail.current[t] !in trail.made)
    && (WithItem(pc) ==> pc.item < |trail.made| && trail.made[pc.item] == trail.current[t])
  }

  ghost predicate ReturnedOk<R>(s: State<R>, trail: Trail) {
    && |trail.returned| == |s.added|
    && forall k :: 0 <= k < |s.added| ==> s.added[k] < |trail.made| && trail.made[s.added[k]] == trail.returned[k]
  }

  ghost predicate TrailOk<R>(s: State<R>, events: seq<Event<R>>, trail: Trail) {
    MadeOk(s, events, trail) && ServesOk(s, events, trail) && ReturnedOk(s, trail)
  }

  lemma FollowKeepsMade<R>(s: State<R>, events: seq<Event<R>>, trail: Trail, event: Event<R>)
    requires event.thread < |s.pcs| && MadeOk(s, events, trail) && ServesOk(s, events, trail)
    ensures MadeOk(Step(s, event.thread, event.choice), events + [event], Follow(s, trail, event, |events|))
  {
  }

  lemma OtherServes<R>(s: State<R>, events: seq<Event<R>>, trail: Trail, event: Event<R>, u: nat)
    requires event.thread < |s.pcs| && MadeOk(s, events, trail) && ServesOk(s, events, trail)
    requires u < |s.pcs| && u != event.thread && Adding(s.pcs[u])
    ensures Serves(s.pcs[u], u, events + [event], Follow(s, trail, event, |events|))
  {
  }

  lemma SelfServes<R>(s: State<R>, events: seq<Event<R>>, trail: Trail, event: Event<R>)
    requires event.thread < |s.pcs| && MadeOk(s, events, trail) && ServesOk(s, events, trail)
    requires Adding(Go(s, event.thread, event.choice))
    ensures Serves(Go(s, event.thread, event.choice), event.thread, events + [event],
                   Follow(s, trail, event, |events|))
  {
    var t := event.thread;
    if Adding(s.pcs[t]) {
      assert Serves(s.pcs[t], t, events, trail);
    }
    assert (events + [event])[|events|] == event;
  }

  lemma FollowKeepsServes<R>(s: State<R>, events: seq<Event<R>>, trail: Trail, event: Event<R>)
    requires event.thread < |s.pcs| && MadeOk(s, events, trail) && ServesOk(s, events, trail)
    ensures ServesOk(Step(s, event.thread, event.choice), events + [event], Follow(s, trail, event, |events|))
  {
    var after := Step(s, event.thread, event.choice);
    OneMoves(s, event.thread, event.choice);
    hide Step, Go, Follow, MadeOk, Serves;
    forall u | 0 <= u < |after.pcs| && Adding(after.pcs[u])
      ensures Serves(after.pcs[u], u, events + [event], Follow(s, trail, event, |events|))
    {
      if u == event.thread {
        SelfServes(s, events, trail, event);
      } else {
        OtherServes(s, events, trail, event, u);
      }
    }
  }

  lemma FollowKeepsReturned<R>(s: State<R>, events: seq<Event<R>>, trail: Trail, event: Event<R>)
    requires event.thread < |s.pcs| && TrailOk(s, events, trail)
    ensures ReturnedOk(Step(s, event.thread, event.choice), Follow(s, trail, event, |events|))
  {
  }

  // ---- Whole runs -----------------------------------------------------------------

  lemma {:induction false} RunKeepsTrail<R>(s: State<R>, events: seq<Event<R>>)
    requires s.records == [] && s.added == [] && Quiescent(s)
    ensures TrailOk(Run(s, events), events, TrailOf(s, events))
  {
    if events != [] {
      var n := |events| - 1;
      RunKeepsTrail(s, events[..n]);
      assert events == events[..n] + [events[n]];
      OneMoreEvent(Run(s, events[..n]), events[..n], TrailOf(s, events[..n]), events[n]);
    }
  }

  /** An event for a thread that is not there. */
  lemma StandsStill<R>(s: State<R>, events: seq<Event<R>>, trail: Trail, event: Event<R>)
    requires event.thread >= |s.pcs| && TrailOk(s, events, trail)
    ensures TrailOk(s, events + [event], Follow(s, trail, event, |events|))
  {
  }

  lemma OneMoreEvent<R>(s: State<R>, events: seq<Event<R>>, trail: Trail, event: Event<R>)
    requires TrailOk(s, events, trail)
    ensures TrailOk(if event.thread < |s.pcs| then Step(s, event.thread, event.choice) else s, events + [event],
                    Follow(s, trail, event, |events|))
  {
    if event.thread < |s.pcs| {
      hide Step;
      FollowKeepsMade(s, events, trail, event);
      FollowKeepsServes(s, events, trail, event);
      FollowKeepsReturned(s, events, trail, event);
    } else {
      StandsStill(s, events, trail, event);
    }
  }

  lemma SameBefore<R>(s: State<R>, events: seq<Event<R>>, k: nat)
    requires events != [] && k < |events|
    ensures After(s, events, k) == After(s, events[..|events| - 1], k)
  {
    assert events[..|events| - 1][..k] == events[..k];
  }

  lemma {:induction false} ThreadsStay<R>(s: State<R>, events: seq<Event<R>>)
    ensures |Run(s, events).pcs| == |s.pcs| && Run(s, events).adders == s.adders
  {
    if events != [] {
      var n := |events| - 1;
      ThreadsStay(s, events[..n]);
      var before := Run(s, events[..n]);
      if events[n].thread < |before.pcs| {
        StepKeepsThreads(before, events[n].thread, events[n].choice);
      }
    }
  }

  lemma StepKeepsThreads<R>(s: State<R>, t: nat, choice: Choice<R>)
    requires t < |s.pcs|
    ensures |Step(s, t, choice).pcs| == |s.pcs| && Step(s, t, choice).adders == s.adders
  {
  }

  /** What was under way or has returned stays so with one more event. */
  lemma CallStays<R>(s: State<R>, events: seq<Event<R>>, n: nat, m: nat)
    requires events != [] && m < |events|
    ensures n < m ==> (Calls(s, events, n) <==> Calls(s, events[..|events| - 1], n))
    ensures Under(s, events, n, m) <==> Under(s, events[..|events| - 1], n, m)
    ensures m < |events| - 1 ==> (Succeeds(s, events, n, m) <==> Succeeds(s, events[..|events| - 1], n, m))
  {
    var before := events[..|events| - 1];
    if n < |events| {
      SameBefore(s, events, n);
    }
    SameBefore(s, events, m);
    forall k | n < k <= m
      ensures After(s, events, k) == After(s, before, k)
    {
      SameBefore(s, events, k);
    }
  }

  /** A thread has at most one call under way. */
  lemma OneCall<R>(s: State<R>, events: seq<Event<R>>, n: nat, n': nat, m: nat)
    requires Under(s, events, n, m) && Under(s, events, n', m) && events[n].thread == events[n'].thread
    ensures n == n'
  {
  }

  /** A busy adder's current call is under way. */
  lemma {:induction false} CurrentIsUnder<R>(s: State<R>, events: seq<Event<R>>, t: nat)
    requires s.records == [] && s.added == [] && Quiescent(s)
    requires t < |Run(s, events).pcs| && Adding(Run(s, events).pcs[t])
    ensures t in TrailOf(s, events).current
    ensures var n := TrailOf(s, events).current[t]; Under(s, events, n, |events|) && events[n].thread == t
  {
    RunKeepsTrail(s, events);
    assert Serves(Run(s, events).pcs[t], t, events, TrailOf(s, events));
    if events != [] {
      var last := |events| - 1;
      var prefix := events[..last];
      var before, trail := Run(s, prefix), TrailOf(s, prefix);
      ThreadsStay(s, prefix);
      if Adding(before.pcs[t]) {
        CurrentIsUnder(s, prefix, t);
        CurrentStays(before, trail, events[last], last, t);
        UnderGoesOn(s, events, trail.current[t]);
      } else {
        StartsAdding(before, events[last], t);
        CallBegins(s, events);
      }
    }
  }

  lemma AfterAll<R>(s: State<R>, events: seq<Event<R>>)
    ensures After(s, events, |events|) == Run(s, events)
  {
    assert events[..|events|] == events;
  }

  lemma UnderGoesOn<R>(s: State<R>, events: seq<Event<R>>, n: nat)
    requires events != [] && Under(s, events[..|events| - 1], n, |events| - 1)
    requires events[n].thread < |Run(s, events).pcs| && !Run(s, events).pcs[events[n].thread].Idle?
    ensures Under(s, events, n, |events|)
  {
    hide Run, After, Calls;
    CallStays(s, events, n, |events| - 1);
    AfterAll(s, events);
  }

  lemma CallBegins<R>(s: State<R>, events: seq<Event<R>>)
    requires events != []
    requires var t, before := events[|events| - 1].thread, Run(s, events[..|events| - 1]);
      && events[|events| - 1].choice.Add? && t < |before.pcs| && before.pcs[t].Idle? && t < s.adders
      && t < |Run(s, events).pcs| && !Run(s, events).pcs[t].Idle?
    ensures Under(s, events, |events| - 1, |events|)
  {
    AfterAll(s, events);
    hide Run;
  }

  lemma CurrentStays<R>(s: State<R>, trail: Trail, event: Event<R>, n: nat, t: nat)
    requires t < |s.pcs| && Adding(s.pcs[t]) && t in trail.current
    ensures t in Follow(s, trail, event, n).current && Follow(s, trail, event, n).current[t] == trail.current[t]
  {
  }

  lemma StartsAdding<R>(s: State<R>, event: Event<R>, t: nat)
    requires t < |s.pcs| && !Adding(s.pcs[t])
    requires Adding((if event.thread < |s.pcs| then Step(s, event.thread, event.choice) else s).pcs[t])
    ensures event.thread == t && s.pcs[t].Idle? && event.choice.Add? && t < s.adders
  {
  }

  /** The calls listed as returned are those that returned success. */
  lemma {:induction false} ReturnedIff<R>(s: State<R>, events: seq<Event<R>>, n: nat)
    requires s.records == [] && s.added == [] && Quiescent(s)
    ensures n in TrailOf(s, events).returned <==> Returns(s, events, n)
  {
    if events != [] {
      var last := |events| - 1;
      var prefix := events[..last];
      hide Run, Succeeds, Returns, Quiescent;
      ReturnedIff(s, prefix, n);
      SucceedsLater(s, events, n);
      LastReturns(s, events, n);
      WhoReturns(Run(s, prefix), TrailOf(s, prefix), events[last], last);
    }
  }

  /** Only the call of the thread that lets the lock go returns with an event. */
  lemma LastReturns<R>(s: State<R>, events: seq<Event<R>>, n: nat)
    requires s.records == [] && s.added == [] && Quiescent(s) && events != []
    ensures var last := |events| - 1;
      var t, pcs, current := events[last].thread, Run(s, events[..last]).pcs, TrailOf(s, events[..last]).current;
      Succeeds(s, events, n, last) <==> t < |pcs| && pcs[t].Counted? && t in current && current[t] == n
  {
    var last := |events| - 1;
    var prefix := events[..last];
    ThreadsStay(s, prefix);
    hide Run;
    var t, pcs := events[last].thread, Run(s, prefix).pcs;
    if t < |pcs| && pcs[t].Counted? {
      CurrentIsUnder(s, prefix, t);
      var c := TrailOf(s, prefix).current[t];
      CallStays(s, events, c, last);
      hide TrailOf;
      assert Succeeds(s, events, c, last);
      if Succeeds(s, events, n, last) {
        OneCall(s, events, n, c, last);
      }
    }
  }

  lemma WhoReturns<R>(s: State<R>, trail: Trail, event: Event<R>, n: nat)
    ensures Follow(s, trail, event, n).returned ==
            if event.thread < |s.pcs| && s.pcs[event.thread].Counted? && event.thread in trail.current
            then trail.returned + [trail.current[event.thread]] else trail.returned
  {
  }

  lemma SucceedsLater<R>(s: State<R>, events: seq<Event<R>>, n: nat)
    requires events != []
    ensures Returns(s, events, n) <==>
            Returns(s, events[..|events| - 1], n) || Succeeds(s, events, n, |events| - 1)
  {
    var prefix := events[..|events| - 1];
    hide Succeeds;
    forall m: nat | m < |events| - 1
      ensures Succeeds(s, events, n, m) <==> Succeeds(s, prefix, n, m)
    {
      CallStays(s, events, n, m);
    }
    SucceedsInside(s, events, n);
    SucceedsInside(s, prefix, n);
  }

  lemma SucceedsInside<R>(s: State<R>, events: seq<Event<R>>, n: nat)
    ensures forall m: nat :: Succeeds(s, events, n, m) ==> m < |events|
  {
  }

  // ---- Exactly once ---------------------------------------------------------------

  ghost function RecordOfCall<R>(events: seq<Event<R>>, n: nat): Option<R> {
    if n < |events| && events[n].choice.Add? then Some(events[n].choice.record) else None
  }

  ghost function RecordsOfCalls<R>(events: seq<Event<R>>, calls: seq<nat>): seq<Option<R>> {
    seq(|calls|, k requires 0 <= k < |calls| => RecordOfCall(events, calls[k]))
  }

  /** `calls` are the calls that returned success, each once. */
  ghost predicate SuccessfulCalls<R>(s: State<R>, events: seq<Event<R>>, calls: seq<nat>) {
    && (forall n :: n in calls <==> Returns(s, events, n))
    && (forall j, k :: 0 <= j < k < |calls| ==> calls[j] != calls[k])
  }

  /** When all threads are done, the records of the add calls that returned success
      are those handed to the registry together with those still queued, each as
      often as it was added. */
  lemma ExactlyOnce<R>(capacity: nat, adders: nat, threads: nat, events: seq<Event<R>>)
    ensures var first := Initial<R>(capacity, adders, threads);
      var s := Run(first, events);
      Quiescent(s) ==>
        && Start(s.batches) <= |s.added|
        && var left := Items(s.handed) + s.added[Start(s.batches)..];
        exists calls ::
          && SuccessfulCalls(first, events, calls)
          && multiset(RecordsOfCalls(events, calls)) == multiset(RecordsOf(s.records, left))
          && (forall i :: i in s.next <==> i in s.added[Start(s.batches)..])
  {
    var first := Initial<R>(capacity, adders, threads);
    var s, trail := Run(first, events), TrailOf(first, events);
    hide Run, Items, Start;
    if Quiescent(s) {
      ItemsAddUp(capacity, adders, threads, events);
      Returned(capacity, adders, threads, events);
    }
  }

  lemma Returned<R>(capacity: nat, adders: nat, threads: nat, events: seq<Event<R>>)
    ensures var first := Initial<R>(capacity, adders, threads);
      var s, calls := Run(first, events), TrailOf(first, events).returned;
      SuccessfulCalls(first, events, calls) && RecordsOfCalls(events, calls) == RecordsOf(s.records, s.added)
  {
    var first := Initial<R>(capacity, adders, threads);
    hide Run, TrailOf, Succeeds, Returns, ServesOk, Inv;
    var s, trail := Run(first, events), TrailOf(first, events);
    forall n: nat
      ensures n in trail.returned <==> Returns(first, events, n)
    {
      ReturnedIff(first, events, n);
    }
    RunKeepsTrail(first, events);
    InitialInv<R>(capacity, adders, threads);
    RunKeepsInv(first, events);
    AddedOnce(s);
    CallsApart(s, events, trail);
  }

  lemma AddedOnce<R>(s: State<R>)
    requires Inv(s)
    ensures forall j, k :: 0 <= j < k < |s.added| ==> s.added[j] != s.added[k]
  {
    assert s.log == s.added + Returning(s);
    assert forall k :: 0 <= k < |s.added| ==> s.log[k] == s.added[k];
  }

  lemma CallsApart<R>(s: State<R>, events: seq<Event<R>>, trail: Trail)
    requires MadeOk(s, events, trail) && ReturnedOk(s, trail)
    requires forall j, k :: 0 <= j < k < |s.added| ==> s.added[j] != s.added[k]
    ensures forall j, k :: 0 <= j < k < |trail.returned| ==> trail.returned[j] != trail.returned[k]
    ensures RecordsOfCalls(events, trail.returned) == RecordsOf(s.records, s.added)
  {
  }
}
