/** The step table: which steps an attempt selects, and when that is the
    migration path. */
module MigrationSteps {
  import opened Cells
  import opened Tables

  const MAX_STEPS: nat := 64

  /** A step with the column operations its function applies. */
  datatype Step = Step(from: nat, to: nat, ops: seq<ColOp>)

  predicate Applicable(step: Step, current: nat, target: nat) {
    step.from >= current && step.to <= target
  }

  ghost function Filter(steps: seq<Step>, current: nat, target: nat): seq<Step> {
    if steps == [] then []
    else
      var n := |steps| - 1;
      Filter(steps[..n], current, target) + (if Applicable(steps[n], current, target) then [steps[n]] else [])
  }

  /** The first MAX_STEPS applicable steps. */
  ghost function Selection(steps: seq<Step>, current: nat, target: nat): seq<Step> {
    var all := Filter(steps, current, target);
    if |all| > MAX_STEPS then all[..MAX_STEPS] else all
  }

  /** The selection loop of mig_run_steps. */
  method SelectSteps(steps: seq<Step>, current: nat, target: nat) returns (selected: seq<Step>)
    ensures selected == Selection(steps, current, target)
  {
    selected := [];
    var i := 0;
    while i < |steps| && |selected| < MAX_STEPS
      invariant i <= |steps| && |selected| <= MAX_STEPS
      invariant selected == Filter(steps[..i], current, target)
    {
      assert steps[..i + 1][..i] == steps[..i];
      if Applicable(steps[i], current, target) {
        selected := selected + [steps[i]];
      }
      i := i + 1;
    }
    FilterOfPrefix(steps, current, target, i);
    assert steps[..|steps|] == steps;
  }

  lemma {:induction false} FilterOfPrefix(steps: seq<Step>, current: nat, target: nat, i: nat)
    requires i <= |steps|
    ensures Filter(steps[..i], current, target) <= Filter(steps, current, target)
  {
    if i == |steps| {
      assert steps[..i] == steps;
    } else {
      var n := |steps| - 1;
      assert steps[..n][..i] == steps[..i];
      FilterOfPrefix(steps[..n], current, target, i);
    }
  }

  /** Each step goes up and starts where the one before it ended. */
  ghost predicate Chain(steps: seq<Step>) {
    && steps != []
    && (forall i :: 0 <= i < |steps| ==> steps[i].from < steps[i].to)
    && (forall i :: 0 <= i < |steps| - 1 ==> steps[i].to == steps[i + 1].from)
  }

  /** The versions on the chain, from the first from_version to the last to_version. */
  ghost function Point(steps: seq<Step>, a: nat): nat
    requires steps != [] && a <= |steps|
  {
    if a < |steps| then steps[a].from else steps[a - 1].to
  }

  lemma {:induction false} PointsIncrease(steps: seq<Step>, a: nat, b: nat)
    requires Chain(steps) && a < b <= |steps|
    ensures Point(steps, a) < Point(steps, b)
  {
    assert Point(steps, b) == steps[b - 1].to;
    if a < b - 1 {
      PointsIncrease(steps, a, b - 1);
    }
  }

  lemma StepOnChain(steps: seq<Step>, i: nat)
    requires Chain(steps) && i < |steps|
    ensures steps[i].from == Point(steps, i) && steps[i].to == Point(steps, i + 1)
  {
  }

  /** Which steps of a chain fit between any two versions. */
  lemma ApplicableOnChain(steps: seq<Step>, i: nat, a: nat, b: nat)
    requires Chain(steps) && i < |steps| && a <= |steps| && b <= |steps|
    ensures steps[i].from >= Point(steps, a) <==> a <= i
    ensures steps[i].to <= Point(steps, b) <==> i < b
  {
    StepOnChain(steps, i);
    if i < a { PointsIncrease(steps, i, a); }
    if a < i { PointsIncrease(steps, a, i); }
    if i + 1 < b { PointsIncrease(steps, i + 1, b); }
    if b < i + 1 { PointsIncrease(steps, b, i + 1); }
  }

  lemma {:induction false} FilterOnChain(steps: seq<Step>, a: nat, b: nat, n: nat)
    requires Chain(steps) && a <= b <= |steps| && n <= |steps|
    ensures Filter(steps[..n], Point(steps, a), Point(steps, b)) ==
            steps[if a < n then a else n..if b < n then b else n]
  {
    if n > 0 {
      assert steps[..n][..n - 1] == steps[..n - 1];
      FilterOnChain(steps, a, b, n - 1);
      ApplicableOnChain(steps, n - 1, a, b);
    }
  }

  /** Between two versions of the chain the applicable steps are exactly the
      contiguous path, in order; all of it is selected exactly up to 64 steps. */
  lemma SelectionIsPath(steps: seq<Step>, a: nat, b: nat)
    requires Chain(steps) && a <= b <= |steps|
    ensures Filter(steps, Point(steps, a), Point(steps, b)) == steps[a..b]
    ensures Selection(steps, Point(steps, a), Point(steps, b)) == steps[a..b] <==> b - a <= MAX_STEPS
  {
    FilterOnChain(steps, a, b, |steps|);
    assert steps[..|steps|] == steps;
  }

  // ---- Targets off the chain ----------------------------------------------

  lemma {:induction false} InFilter(steps: seq<Step>, current: nat, target: nat, s: Step)
    ensures s in Filter(steps, current, target) <==> s in steps && Applicable(s, current, target)
  {
    if steps != [] {
      var n := |steps| - 1;
      InFilter(steps[..n], current, target, s);
      assert s in steps <==> s in steps[..n] || s == steps[n];
    }
  }

  /** A version strictly inside a step. */
  lemma {:induction false} GapAround(steps: seq<Step>, a: nat, b: nat, t: nat) returns (m: nat)
    requires Chain(steps) && a <= b <= |steps|
    requires Point(steps, a) < t < Point(steps, b)
    requires forall m :: a <= m <= b ==> t != Point(steps, m)
    ensures a <= m < b && Point(steps, m) < t < Point(steps, m + 1)
    decreases b - a
  {
    if t < Point(steps, a + 1) {
      m := a;
    } else {
      m := GapAround(steps, a + 1, b, t);
    }
  }

  /** Going from one version of the chain to another in two attempts, by way of
      t, selects the whole path exactly when t is itself on the chain.  A target
      inside a step is written to disk all the same, and the step is skipped
      for good. */
  lemma StopoverKeepsPath(steps: seq<Step>, a: nat, b: nat, t: nat)
    requires Chain(steps) && a <= b <= |steps|
    requires Point(steps, a) <= t <= Point(steps, b)
    ensures Filter(steps, Point(steps, a), t) + Filter(steps, t, Point(steps, b)) == steps[a..b] <==>
            exists m :: a <= m <= b && t == Point(steps, m)
  {
    var first, second := Filter(steps, Point(steps, a), t), Filter(steps, t, Point(steps, b));
    if m :| a <= m <= b && t == Point(steps, m) {
      SelectionIsPath(steps, a, m);
      SelectionIsPath(steps, m, b);
      assert steps[a..m] + steps[m..b] == steps[a..b];
    } else {
      assert t != Point(steps, a) && t != Point(steps, b);
      var m := GapAround(steps, a, b, t);
      StepOnChain(steps, m);
      InFilter(steps, Point(steps, a), t, steps[m]);
      InFilter(steps, t, Point(steps, b), steps[m]);
      assert steps[m] !in first + second;
      assert steps[a..b][m - a] == steps[m];
    }
  }

  // ---- The shipped table --------------------------------------------------

  const SCHEMA_VERSION_CURRENT: nat := 10000

  const FORWARD_STEPS: seq<Step> := [
    Step(10000, 10100, [AddOp("agents", "priority", Integer(0)), AddOp("agents", "tags", Text(""))]),
    Step(10100, 20000, [AddOp("sessions", "metadata", Text(""))])
  ]

  /** The operations of several steps, one after the other. */
  ghost function AllOps(steps: seq<Step>): seq<ColOp> {
    if steps == [] then [] else AllOps(steps[..|steps| - 1]) + steps[|steps| - 1].ops
  }

  /** The shipped table is a chain of column adds. */
  lemma ShippedTable(current: nat, target: nat)
    ensures Chain(FORWARD_STEPS)
    ensures AddsOnly(AllOps(Selection(FORWARD_STEPS, current, target)))
    ensures AllCompatible(AllOps(Selection(FORWARD_STEPS, current, target)))
  {
    var selected := Selection(FORWARD_STEPS, current, target);
    forall s | s in selected
      ensures AddsOnly(s.ops)
    {
      InFilter(FORWARD_STEPS, current, target, s);
    }
    AllOpsAddOnly(selected);
  }

  lemma {:induction false} AllOpsAddOnly(steps: seq<Step>)
    requires forall s :: s in steps ==> AddsOnly(s.ops)
    ensures AddsOnly(AllOps(steps))
  {
    if steps != [] {
      AllOpsAddOnly(steps[..|steps| - 1]);
      assert steps[|steps| - 1] in steps;
    }
  }

  /** With the shipped CURRENT, an upgrade to the latest selects no step at all. */
  lemma ShippedTargetSelectsNothing(current: nat)
    ensures Selection(FORWARD_STEPS, current, SCHEMA_VERSION_CURRENT) == []
  {
    var all := Filter(FORWARD_STEPS, current, SCHEMA_VERSION_CURRENT);
    if all != [] {
      InFilter(FORWARD_STEPS, current, SCHEMA_VERSION_CURRENT, all[0]);
    }
  }

  /** On the shipped table the skipped step is real: going from 10000 to 20000 by
      way of 10050, which is between two versions of the chain, never adds the
      agent columns. */
  lemma ShippedStopoverSkips()
    ensures Filter(FORWARD_STEPS, 10000, 20000) == FORWARD_STEPS
    ensures Filter(FORWARD_STEPS, 10000, 10050) == []
    ensures Filter(FORWARD_STEPS, 10050, 20000) == FORWARD_STEPS[1..]
  {
    var first := FORWARD_STEPS[..1];
    assert FORWARD_STEPS[..2] == FORWARD_STEPS && first[..0] == [];
    assert FORWARD_STEPS[..1] == first && first == [FORWARD_STEPS[0]];
  }
}
