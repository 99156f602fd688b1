/** The operation counters under concurrent updates.  One step is one atomic
    operation on a shared counter, or a test of the compare-exchange loop. */
module Metrics {

  /** The arguments of heapstore_core_metrics_update. */
  datatype Update = Update(elapsed: nat, fast: bool, failed: bool)

  /** Where an update stands.  `ops` is the number of running operations it saw
      when it entered, itself included. */
  datatype Pc =
    | Fresh
    | Begun
    | Timed
    | Entered(ops: int)
    | Looping(ops: int, expected: int)
    | Past(ops: int)
    | Exited(ops: int)
    | Classified(ops: int)
    | Done(ops: int)

  datatype Thread = Thread(job: Update, pc: Pc)

  datatype State = State(
    threads: seq<Thread>,
    total: nat, time: nat, current: int, peak: int, fast: nat, slow: nat, failed: nat)

  function Initial(jobs: seq<Update>): State {
    State(seq(|jobs|, i requires 0 <= i < |jobs| => Thread(jobs[i], Fresh)), 0, 0, 0, 0, 0, 0, 0)
  }

  function Go(s: State, t: nat): Pc
    requires t < |s.threads|
  {
    match s.threads[t].pc
    case Fresh => Begun
    case Begun => Timed
    case Timed => Entered(s.current + 1)
    case Entered(ops) => Looping(ops, s.peak)
    case Looping(ops, expected) =>
      if ops <= expected || s.peak == expected then Past(ops)
      else Looping(ops, s.peak)            // a failed exchange reloads `expected`
    case Past(ops) => Exited(ops)
    case Exited(ops) => Classified(ops)
    case Classified(ops) => Done(ops)
    case Done(ops) => Done(ops)
  }

  function Act(s: State, t: nat): (after: State)
    requires t < |s.threads|
    ensures after.threads == s.threads
  {
    var job := s.threads[t].job;
    match s.threads[t].pc
    case Fresh => s.(total := s.total + 1)
    case Begun => s.(time := s.time + job.elapsed)
    case Timed => s.(current := s.current + 1)
    case Looping(ops, expected) =>
      if ops > expected && s.peak == expected then s.(peak := ops) else s
    case Past(_) => s.(current := s.current - 1)
    case Exited(_) => if job.fast then s.(fast := s.fast + 1) else s.(slow := s.slow + 1)
    case Classified(_) => if job.failed then s.(failed := s.failed + 1) else s
    case _ => s
  }

  function Step(s: State, t: nat): State
    requires t < |s.threads|
  {
    Act(s, t).(threads := s.threads[t := Thread(s.threads[t].job, Go(s, t))])
  }

  function Run(s: State, schedule: seq<nat>): State {
    if schedule == [] then s
    else
      var before := Run(s, schedule[..|schedule| - 1]);
      var t := schedule[|schedule| - 1];
      if t < |before.threads| then Step(before, t) else before
  }

  // ---- Sums over the threads ----------------------------------------------------

  function Sum(f: Thread -> nat, threads: seq<Thread>): nat {
    if threads == [] then 0 else Sum(f, threads[..|threads| - 1]) + f(threads[|threads| - 1])
  }

  lemma {:induction false} SumUpdate(f: Thread -> nat, threads: seq<Thread>, t: nat, thread: Thread)
    requires t < |threads|
    ensures Sum(f, threads[t := thread]) + f(threads[t]) == Sum(f, threads) + f(thread)
  {
    var n := |threads| - 1;
    if t < n {
      assert threads[t := thread][..n] == threads[..n][t := thread];
      SumUpdate(f, threads[..n], t, thread);
    } else {
      assert threads[t := thread][..n] == threads[..n];
    }
  }

  lemma {:induction false} SumBound(f: Thread -> nat, threads: seq<Thread>, k: nat)
    requires forall th :: f(th) <= k
    ensures Sum(f, threads) <= k * |threads|
  {
    if threads != [] {
      SumBound(f, threads[..|threads| - 1], k);
    }
  }

  lemma {:induction false} SumSame(f: Thread -> nat, a: seq<Thread>, g: Thread -> nat, b: seq<Thread>)
    requires |a| == |b| && forall i :: 0 <= i < |a| ==> f(a[i]) == g(b[i])
    ensures Sum(f, a) == Sum(g, b)
  {
    if a != [] {
      SumSame(f, a[..|a| - 1], g, b[..|b| - 1]);
    }
  }

  function Begins(th: Thread): nat { if th.pc.Fresh? then 0 else 1 }

  function Spent(th: Thread): nat { if th.pc.Fresh? || th.pc.Begun? then 0 else th.job.elapsed }

  function Inside(th: Thread): nat { if th.pc.Entered? || th.pc.Looping? || th.pc.Past? then 1 else 0 }

  predicate Sorted(th: Thread) { th.pc.Classified? || th.pc.Done? }

  function Fast(th: Thread): nat { if Sorted(th) && th.job.fast then 1 else 0 }

  function Slow(th: Thread): nat { if Sorted(th) && !th.job.fast then 1 else 0 }

  function Failed(th: Thread): nat { if th.pc.Done? && th.job.failed then 1 else 0 }

  ghost predicate CountersOk(s: State) {
    && s.total == Sum(Begins, s.threads)
    && s.time == Sum(Spent, s.threads)
    && s.current == Sum(Inside, s.threads)
    && s.fast == Sum(Fast, s.threads)
    && s.slow == Sum(Slow, s.threads)
    && s.failed == Sum(Failed, s.threads)
  }

  /** It has entered, and knows how many were running. */
  predicate Saw(pc: Pc) { !pc.Fresh? && !pc.Begun? && !pc.Timed? }

  predicate LeftLoop(pc: Pc) { pc.Past? || pc.Exited? || pc.Classified? || pc.Done? }

  ghost predicate SawHigh(s: State, t: nat, high: int) {
    t < |s.threads| && Saw(s.threads[t].pc) && s.threads[t].pc.ops == high
  }

  /** `high` is the highest value `current` has had. */
  ghost predicate PeakOk(s: State, high: int) {
    && 0 <= s.current <= high && 0 <= s.peak <= high <= |s.threads|
    && (high > 0 ==> exists t: nat :: SawHigh(s, t, high))
    && (forall t :: 0 <= t < |s.threads| && Saw(s.threads[t].pc) ==> 1 <= s.threads[t].pc.ops <= high)
    && (forall t :: 0 <= t < |s.threads| && s.threads[t].pc.Looping? ==> s.threads[t].pc.expected <= s.peak)
    && (forall t :: 0 <= t < |s.threads| && LeftLoop(s.threads[t].pc) ==> s.threads[t].pc.ops <= s.peak)
  }

  function Max(a: int, b: int): int {
    if a < b then b else a
  }

  lemma StepKeepsCounters(s: State, t: nat)
    requires t < |s.threads| && CountersOk(s)
    ensures CountersOk(Step(s, t))
  {
    var after := Thread(s.threads[t].job, Go(s, t));
    SumUpdate(Begins, s.threads, t, after);
    SumUpdate(Spent, s.threads, t, after);
    SumUpdate(Inside, s.threads, t, after);
    SumUpdate(Fast, s.threads, t, after);
    SumUpdate(Slow, s.threads, t, after);
    SumUpdate(Failed, s.threads, t, after);
    hide Sum;
  }

  lemma StepKeepsPeak(s: State, t: nat, high: int)
    requires t < |s.threads| && CountersOk(s) && PeakOk(s, high)
    ensures PeakOk(Step(s, t), Max(high, Step(s, t).current)) && Step(s, t).peak >= s.peak
  {
    var s' := Step(s, t);
    var high' := Max(high, s'.current);
    StepKeepsCounters(s, t);
    SumBound(Inside, s'.threads, 1);
    hide Sum, Spent, Fast, Slow, Failed;
    if high > 0 && high' == high {
      var u: nat :| SawHigh(s, u, high);
      assert SawHigh(s', u, high);
    } else if high' > 0 {
      assert SawHigh(s', t, high');
    }
  }

  /** A failed exchange brings `expected` strictly closer to `ops`. */
  lemma FailedExchange(s: State, t: nat)
    requires t < |s.threads| && Inv(s) && s.threads[t].pc.Looping? && Go(s, t).Looping?
    ensures var pc, pc' := s.threads[t].pc, Go(s, t);
      pc.expected < pc.ops && pc'.ops == pc.ops && pc.expected < pc'.expected
  {
  }

  // ---- Termination ----------------------------------------------------------------

  /** An upper bound on the steps an update still takes, with n updates in all. */
  function Rank(n: nat): Thread -> nat {
    (th: Thread) =>
      match th.pc
      case Fresh => n + 8
      case Begun => n + 7
      case Timed => n + 6
      case Entered(_) => n + 5
      case Looping(ops, expected) => 4 + if ops > expected then ops - expected else 0
      case Past(_) => 3
      case Exited(_) => 2
      case Classified(_) => 1
      case Done(_) => 0
  }

  ghost predicate Inv(s: State) {
    CountersOk(s) && exists high :: PeakOk(s, high)
  }

  /** Every step of an unfinished update brings the end of all updates nearer:
      the loops terminate under every schedule. */
  lemma EveryStepCounts(s: State, t: nat)
    requires Inv(s) && t < |s.threads| && !s.threads[t].pc.Done?
    ensures Sum(Rank(|s.threads|), Step(s, t).threads) < Sum(Rank(|s.threads|), s.threads)
  {
    SumUpdate(Rank(|s.threads|), s.threads, t, Thread(s.threads[t].job, Go(s, t)));
    hide Sum, CountersOk;
  }

  // ---- Whole runs -----------------------------------------------------------------

  lemma {:induction false} NothingYet(f: Thread -> nat, threads: seq<Thread>)
    requires forall th :: th in threads ==> f(th) == 0
    ensures Sum(f, threads) == 0
  {
    if threads != [] {
      assert threads[|threads| - 1] in threads;
      NothingYet(f, threads[..|threads| - 1]);
    }
  }

  lemma InitialInv(jobs: seq<Update>)
    ensures CountersOk(Initial(jobs)) && PeakOk(Initial(jobs), 0)
  {
    var threads := Initial(jobs).threads;
    assert forall th :: th in threads ==> th.pc.Fresh?;
    NothingYet(Begins, threads);
    NothingYet(Spent, threads);
    NothingYet(Inside, threads);
    NothingYet(Fast, threads);
    NothingYet(Slow, threads);
    NothingYet(Failed, threads);
  }

  ghost predicate SameJobs(a: seq<Thread>, b: seq<Thread>) {
    |a| == |b| && forall i :: 0 <= i < |a| ==> a[i].job == b[i].job
  }

  /** The highest value `current` has in a run. */
  function Highest(s: State, schedule: seq<nat>): int {
    if schedule == [] then s.current
    else Max(Highest(s, schedule[..|schedule| - 1]), Run(s, schedule).current)
  }

  lemma {:induction false} HighestIsReached(s: State, schedule: seq<nat>)
    ensures forall k :: 0 <= k <= |schedule| ==> Run(s, schedule[..k]).current <= Highest(s, schedule)
    ensures exists k :: 0 <= k <= |schedule| && Run(s, schedule[..k]).current == Highest(s, schedule)
  {
    var n := |schedule|;
    assert schedule[..n] == schedule;
    if n > 0 {
      var before := schedule[..n - 1];
      HighestIsReached(s, before);
      assert forall k :: 0 <= k < n ==> before[..k] == schedule[..k];
    }
  }

  lemma {:induction false} RunKeepsInv(s: State, schedule: seq<nat>)
    requires CountersOk(s) && PeakOk(s, s.current)
    ensures CountersOk(Run(s, schedule)) && PeakOk(Run(s, schedule), Highest(s, schedule))
    ensures Inv(Run(s, schedule)) && Run(s, schedule).peak >= s.peak
    ensures SameJobs(Run(s, schedule).threads, s.threads)
  {
    if schedule != [] {
      var n := |schedule| - 1;
      RunKeepsInv(s, schedule[..n]);
      var before := Run(s, schedule[..n]);
      if schedule[n] < |before.threads| {
        StepKeepsCounters(before, schedule[n]);
        StepKeepsPeak(before, schedule[n], Highest(s, schedule[..n]));
      }
    }
  }

  /** The updates that take a real step. */
  function Moves(s: State, schedule: seq<nat>): nat {
    if schedule == [] then 0
    else
      var n := |schedule| - 1;
      var before := Run(s, schedule[..n]);
      Moves(s, schedule[..n]) +
        if schedule[n] < |before.threads| && !before.threads[schedule[n]].pc.Done? then 1 else 0
  }

  /** However the schedule goes, n updates take at most n * (n + 8) steps. */
  lemma Terminates(jobs: seq<Update>, schedule: seq<nat>)
    ensures Moves(Initial(jobs), schedule) <= |jobs| * (|jobs| + 8)
  {
    InitialInv(jobs);
    MovesBound(Initial(jobs), schedule);
    assert forall th :: th in Initial(jobs).threads ==> th.pc.Fresh?;
    SumAll(Rank(|jobs|), Initial(jobs).threads, |jobs| + 8);
  }

  lemma {:induction false} SumAll(f: Thread -> nat, threads: seq<Thread>, k: nat)
    requires forall th :: th in threads ==> f(th) == k
    ensures Sum(f, threads) == |threads| * k
  {
    if threads != [] {
      assert threads[|threads| - 1] in threads;
      SumAll(f, threads[..|threads| - 1], k);
    }
  }

  lemma {:induction false} MovesBound(s: State, schedule: seq<nat>)
    requires CountersOk(s) && PeakOk(s, s.current)
    ensures |Run(s, schedule).threads| == |s.threads|
    ensures Moves(s, schedule) + Sum(Rank(|s.threads|), Run(s, schedule).threads) <= Sum(Rank(|s.threads|), s.threads)
  {
    if schedule != [] {
      var n := |schedule| - 1;
      MovesBound(s, schedule[..n]);
      RunKeepsInv(s, schedule[..n]);
      hide Sum, Inv, CountersOk, PeakOk;
      var before := Run(s, schedule[..n]);
      if schedule[n] < |before.threads| {
        OneMove(before, schedule[n]);
      }
    }
  }

  lemma OneMove(s: State, t: nat)
    requires Inv(s) && t < |s.threads|
    ensures |Step(s, t).threads| == |s.threads|
    ensures Sum(Rank(|s.threads|), Step(s, t).threads) + (if s.threads[t].pc.Done? then 0 else 1)
            <= Sum(Rank(|s.threads|), s.threads)
  {
    hide Sum, Inv;
    if s.threads[t].pc.Done? {
      assert Step(s, t).threads == s.threads;
    } else {
      EveryStepCounts(s, t);
    }
  }

  /** Update t entered with step k of the schedule, and `ops` is how many were
      running just then. */
  ghost predicate EnteredAt(jobs: seq<Update>, schedule: seq<nat>, t: nat, ops: int, k: nat) {
    && 0 < k <= |schedule| && schedule[k - 1] == t < |Run(Initial(jobs), schedule[..k - 1]).threads|
    && Run(Initial(jobs), schedule[..k - 1]).threads[t].pc.Timed?
    && Run(Initial(jobs), schedule[..k]).current == ops
  }

  /** What an update carries through its loop is the concurrency it met. */
  lemma {:induction false} OpsAreConcurrency(jobs: seq<Update>, schedule: seq<nat>, t: nat)
    requires t < |Run(Initial(jobs), schedule).threads| && Saw(Run(Initial(jobs), schedule).threads[t].pc)
    ensures exists k: nat :: EnteredAt(jobs, schedule, t, Run(Initial(jobs), schedule).threads[t].pc.ops, k)
  {
    var n := |schedule|;
    var s := Run(Initial(jobs), schedule);
    assert schedule[..n] == schedule;
    if n > 0 {
      var before := schedule[..n - 1];
      var s0 := Run(Initial(jobs), before);
      if s0.threads[t].pc.Timed? {
        assert EnteredAt(jobs, schedule, t, s.threads[t].pc.ops, n);
      } else {
        OpsAreConcurrency(jobs, before, t);
        var k: nat :| EnteredAt(jobs, before, t, s0.threads[t].pc.ops, k);
        assert before[..k] == schedule[..k] && before[..k - 1] == schedule[..k - 1];
        hide Run;
        assert EnteredAt(jobs, schedule, t, s.threads[t].pc.ops, k);
      }
    }
  }

  /** At every moment of every run `current` is the number of updates that have
      entered and not left, and the peak is at most the number of updates and
      reached by `current` at some earlier moment, and at least what every update
      past its loop met. */
  lemma PeakBounds(jobs: seq<Update>, schedule: seq<nat>)
    ensures var s := Run(Initial(jobs), schedule);
      && s.current == Sum(Inside, s.threads) && s.peak <= |jobs|
      && (exists k :: 0 <= k <= |schedule| && s.peak <= Run(Initial(jobs), schedule[..k]).current <= |jobs|)
      && (forall t :: 0 <= t < |s.threads| && LeftLoop(s.threads[t].pc) ==> s.threads[t].pc.ops <= s.peak)
  {
    InitialInv(jobs);
    RunKeepsInv(Initial(jobs), schedule);
    HighestIsReached(Initial(jobs), schedule);
    assert |Initial(jobs).threads| == |jobs|;
    hide Run, Initial, Highest, Sum;
  }

  function Elapsed(th: Thread): nat { th.job.elapsed }

  function IsFast(th: Thread): nat { if th.job.fast then 1 else 0 }

  function IsFailed(th: Thread): nat { if th.job.failed then 1 else 0 }

  ghost predicate AllDone(s: State) {
    forall t :: 0 <= t < |s.threads| ==> s.threads[t].pc.Done?
  }

  lemma DoneCounters(s: State, high: int)
    requires CountersOk(s) && PeakOk(s, high) && AllDone(s)
    ensures s.current == 0 && s.total == |s.threads| == s.fast + s.slow && s.peak == high
    ensures s.fast == Sum(IsFast, s.threads) && s.failed == Sum(IsFailed, s.threads) <= s.total
    ensures s.time == Sum(Elapsed, s.threads)
  {
    var threads := s.threads;
    NothingYet(Inside, threads);
    SumAll(Begins, threads, 1);
    SumPair(Fast, Slow, Begins, threads);
    SumBound(Failed, threads, 1);
    SumSame(Fast, threads, IsFast, threads);
    SumSame(Failed, threads, IsFailed, threads);
    SumSame(Spent, threads, Elapsed, threads);
    hide Sum;
    if high > 0 {
      var t: nat :| SawHigh(s, t, high);
      assert LeftLoop(s.threads[t].pc);
    }
  }

  lemma {:induction false} SumPair(f: Thread -> nat, g: Thread -> nat, h: Thread -> nat, threads: seq<Thread>)
    requires forall th :: th in threads ==> f(th) + g(th) == h(th)
    ensures Sum(f, threads) + Sum(g, threads) == Sum(h, threads)
  {
    if threads != [] {
      assert threads[|threads| - 1] in threads;
      SumPair(f, g, h, threads[..|threads| - 1]);
    }
  }

  /** When every update has returned: nothing is counted as running, every update
      is counted once as fast or slow, the failures and the time are right, and
      the peak is exactly the highest value `current` had at any moment. */
  lemma AtRest(jobs: seq<Update>, schedule: seq<nat>)
    ensures var s := Run(Initial(jobs), schedule);
      var started := Initial(jobs).threads;
      AllDone(s) ==>
        && s.current == 0
        && s.total == |jobs| == s.fast + s.slow
        && s.fast == Sum(IsFast, started) && s.failed == Sum(IsFailed, started) <= s.total
        && s.time == Sum(Elapsed, started)
        && (forall k :: 0 <= k <= |schedule| ==> Run(Initial(jobs), schedule[..k]).current <= s.peak)
        && (exists k :: 0 <= k <= |schedule| && Run(Initial(jobs), schedule[..k]).current == s.peak)
  {
    var s, started := Run(Initial(jobs), schedule), Initial(jobs).threads;
    assert |started| == |jobs| && Initial(jobs).current == 0;
    hide Run, Initial, Sum, CountersOk, PeakOk, Highest, Inv;
    InitialInv(jobs);
    RunKeepsInv(Initial(jobs), schedule);
    HighestIsReached(Initial(jobs), schedule);
    if AllDone(s) {
      DoneCounters(s, Highest(Initial(jobs), schedule));
      SumSame(IsFast, s.threads, IsFast, started);
      SumSame(IsFailed, s.threads, IsFailed, started);
      SumSame(Elapsed, s.threads, Elapsed, started);
    }
  }
}
