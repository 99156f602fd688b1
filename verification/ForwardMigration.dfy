/** A forward migration attempt, and any run of attempts that fail or crash. */
module ForwardMigration {
  import opened Widths
  import opened Status
  import opened Storage
  import opened Paths
  import opened Tables
  import opened Replay
  import opened VersionFile
  import opened DataMigration
  import opened MigrationSteps

  /** The backup of the database is a file of its own: see RootForSeparateBackup. */
  ghost predicate RootFits(root: string) {
    BackupPath(DbPath(root)) != DbPath(root)
  }

  /** A sound database file that can be backed up, or none to migrate. */
  ghost predicate Migratable(files: Files, root: string, sql: Sql) {
    DbFileOk(files, DbPath(root), sql) && (DbPath(root) in files ==> RootFits(root))
  }

  lemma FilesAreApart(root: string)
    requires RootFits(root)
    ensures |TmpPath(root)| < MAX_PATH_LEN
    ensures {VersionPath(root), TmpPath(root)} !! {DbPath(root), BackupPath(DbPath(root))}
  {
  }

  /** What holds at every point of an attempt that started from tables db and
      version v0: the database is at some prefix of the operations, and the
      version is the old one unless every operation is in. */
  ghost predicate AttemptPoint(files: Files, root: string, sql: Sql, db: Db, ops: seq<ColOp>,
                               v0: nat, target: nat)
  {
    && Migratable(files, root, sql)
    && VersionOk(files, root)
    && HasPrefix(DbOf(files, DbPath(root), sql), db, ops)
    && (VersionOf(files, root) == v0 ||
        (VersionOf(files, root) == target && DbOf(files, DbPath(root), sql) == ApplyOps(db, ops)))
  }

  ghost predicate HasPrefix(now: Db, db: Db, ops: seq<ColOp>) {
    exists k :: 0 <= k <= |ops| && now == ApplyOps(db, ops[..k])
  }

  ghost predicate AllPoints(history: seq<Files>, from: nat, root: string, sql: Sql, db: Db,
                            ops: seq<ColOp>, v0: nat, target: nat)
  {
    forall i :: from <= i < |history| ==> AttemptPoint(history[i], root, sql, db, ops, v0, target)
  }

  /** No table, no effect. */
  lemma {:induction false} NoTablesNoChange(ops: seq<ColOp>)
    ensures ApplyOps(map[], ops) == map[]
  {
    if ops != [] {
      NoTablesNoChange(ops[..|ops| - 1]);
    }
  }

  // ---- What the database takes ---------------------------------------------

  /** The version file can be written, and the database, if there is one, takes the
      operations. */
  ghost predicate Fits(files: Files, root: string, sql: Sql, ops: seq<ColOp>) {
    && |TmpPath(root)| < MAX_PATH_LEN
    && (DbPath(root) in files ==> TakesAll(DbOf(files, DbPath(root), sql), ops))
  }

  /** Whole steps, none of them half done. */
  ghost predicate WholeSteps(now: Db, db: Db, selected: seq<Step>) {
    exists k :: 0 <= k <= |selected| && now == ApplyOps(db, AllOps(selected[..k]))
  }

  lemma OneMoreStep(db: Db, selected: seq<Step>, i: nat)
    requires i < |selected|
    ensures AllOps(selected[..i + 1]) == AllOps(selected[..i]) + selected[i].ops
    ensures TakesAll(db, AllOps(selected[..i + 1])) <==>
            TakesAll(db, AllOps(selected[..i])) && TakesAll(ApplyOps(db, AllOps(selected[..i])), selected[i].ops)
  {
    assert selected[..i + 1][..i] == selected[..i];
    TakesConcat(db, AllOps(selected[..i]), selected[i].ops);
  }

  lemma NoStepYet(db: Db, selected: seq<Step>)
    ensures TakesAll(db, AllOps(selected[..0])) && selected[..|selected|] == selected
  {
  }

  lemma StepTaken(db: Db, selected: seq<Step>, i: nat)
    requires i < |selected|
    ensures TakesAll(db, AllOps(selected)) ==> TakesAll(ApplyOps(db, AllOps(selected[..i])), selected[i].ops)
    ensures TakesAll(db, AllOps(selected[..i + 1])) <==>
            TakesAll(db, AllOps(selected[..i])) && TakesAll(ApplyOps(db, AllOps(selected[..i])), selected[i].ops)
  {
    hide TakesAll, ApplyOps, AllOps;
    OneMoreStep(db, selected, i);
    if TakesAll(db, AllOps(selected)) {
      TakesFirst(db, selected, i + 1);
    }
  }

  lemma {:induction false} TakesFirst(db: Db, selected: seq<Step>, i: nat)
    requires i <= |selected| && TakesAll(db, AllOps(selected))
    ensures TakesAll(db, AllOps(selected[..i]))
    decreases |selected| - i
  {
    if i == |selected| {
      assert selected[..i] == selected;
    } else {
      TakesFirst(db, selected, i + 1);
      OneMoreStep(db, selected, i);
    }
  }

  // ---- One attempt --------------------------------------------------------

  /** The steps of one attempt, in order, stopping at the first that fails; the
      version is written last, and only when none failed. */
  method RunSteps(disk: Disk, sql: Sql, root: string, steps: seq<Step>, current: nat, target: nat)
    returns (status: Status)
    requires disk.Valid() && sql.Faithful() && target < TWO_32
    requires Migratable(disk.files, root, sql)
    requires VersionOk(disk.files, root) && VersionOf(disk.files, root) == current
    modifies disk
    ensures disk.Valid() && old(disk.history) <= disk.history
    ensures status == Success || status == Internal
    ensures AttemptDone(disk.history, |old(disk.history)|, disk.files, root, sql,
                        old(DbOf(disk.files, DbPath(root), sql)),
                        AllOps(Selection(steps, current, target)), current, target, status)
    ensures disk.LastWorked() ==>
      WholeSteps(DbOf(disk.files, DbPath(root), sql), old(DbOf(disk.files, DbPath(root), sql)),
                 Selection(steps, current, target))
    ensures status == Success ==> old(Fits(disk.files, root, sql, AllOps(Selection(steps, current, target))))
    ensures disk.AllWorked(|old(disk.history)|) ==>
      old(Fits(disk.files, root, sql, AllOps(Selection(steps, current, target)))) ==> status == Success
  {
    ghost var from := |disk.history|;
    ghost var db := DbOf(disk.files, DbPath(root), sql);
    NothingYet(disk.files, root, sql, steps, target);
    var selected := SelectSteps(steps, current, target);
    assert selected[..0] == [];
    ghost var done: nat;
    status, done := ExecuteSteps(disk, sql, root, selected, from, db, current, target);
    if status != Success {
      return;
    }
    assert selected[..|selected|] == selected;
    status := StampVersion(disk, sql, root, selected, from, db, current, target);
    assert WholeSteps(ApplyOps(db, AllOps(selected)), db, selected);
  }

  /** How an attempt that began at index `from` of the history left the disk. */
  ghost predicate AttemptDone(history: seq<Files>, from: nat, files: Files, root: string, sql: Sql, db: Db,
                              ops: seq<ColOp>, v0: nat, target: nat, status: Status)
  {
    && AllPoints(history, from, root, sql, db, ops, v0, target)
    && AttemptPoint(files, root, sql, db, ops, v0, target)
    && (status == Success ==> VersionOf(files, root) == target &&
                              DbOf(files, DbPath(root), sql) == ApplyOps(db, ops))
    && (status != Success ==> VersionOf(files, root) == v0)
  }

  /** The end of mig_run_steps: every step went well, so the version is written. */
  method StampVersion(disk: Disk, sql: Sql, root: string, ghost selected: seq<Step>, ghost from: nat,
                      ghost db: Db, ghost current: nat, target: nat)
    returns (status: Status)
    requires disk.Valid() && target < TWO_32
    requires StepsDone(disk.history, from, disk.files, root, sql, db, selected, |selected|, current, target)
    requires DbOf(disk.files, DbPath(root), sql) == ApplyOps(db, AllOps(selected))
    modifies disk
    ensures disk.Valid() && old(disk.history) <= disk.history
    ensures status == Success || status == Internal
    ensures AttemptDone(disk.history, from, disk.files, root, sql, db, AllOps(selected), current, target, status)
    ensures DbOf(disk.files, DbPath(root), sql) == ApplyOps(db, AllOps(selected))
    ensures status == Success ==> |TmpPath(root)| < MAX_PATH_LEN
    ensures |TmpPath(root)| < MAX_PATH_LEN && disk.AllWorked(|old(disk.history)|) ==> status == Success
  {
    ghost var h, before := disk.history, disk.files;
    ghost var at: nat;
    status, at := SetVersion(disk, root, true, target);
    VersionPoints(h, disk.history, from, at, before, root, sql, db, AllOps(selected), current, target);
    status := if status == Success then Success else Internal;
  }

  /** Inside an attempt, after `done` of the selected steps. */
  ghost predicate StepsDone(history: seq<Files>, from: nat, files: Files, root: string, sql: Sql, db: Db,
                            selected: seq<Step>, done: nat, current: nat, target: nat)
    requires done <= |selected|
  {
    && from <= |history| && DbOk(db)
    && AllPoints(history, from, root, sql, db, AllOps(selected), current, target)
    && AttemptPoint(files, root, sql, db, AllOps(selected), current, target)
    && VersionOf(files, root) == current
  }

  /** The loop that executes the selected steps and breaks at the first failure. */
  method ExecuteSteps(disk: Disk, sql: Sql, root: string, selected: seq<Step>, ghost from: nat,
                      ghost db: Db, ghost current: nat, ghost target: nat)
    returns (status: Status, ghost done: nat)
    requires disk.Valid() && sql.Faithful()
    requires StepsDone(disk.history, from, disk.files, root, sql, db, selected, 0, current, target)
    requires DbOf(disk.files, DbPath(root), sql) == ApplyOps(db, AllOps(selected[..0]))
    modifies disk
    ensures disk.Valid() && old(disk.history) <= disk.history
    ensures status == Success || status == Internal
    ensures done <= |selected| && (status == Success ==> done == |selected|)
    ensures StepsDone(disk.history, from, disk.files, root, sql, db, selected, done, current, target)
    ensures status == Success || disk.LastWorked() ==>
      DbOf(disk.files, DbPath(root), sql) == ApplyOps(db, AllOps(selected[..done]))
    ensures old(DbPath(root) in disk.files) && status == Success ==> TakesAll(db, AllOps(selected))
    ensures disk.AllWorked(|old(disk.history)|) ==>
      (old(DbPath(root) in disk.files) ==> TakesAll(db, AllOps(selected))) ==> status == Success
  {
    var i := 0;
    ghost var there := DbPath(root) in disk.files;
    hide TakesAll, ApplyOps, AllOps, DbOf, StepsDone;
    NoStepYet(db, selected);
    while i < |selected|
      invariant i <= |selected|
      invariant disk.Valid() && old(disk.history) <= disk.history
      invariant there <==> DbPath(root) in disk.files
      invariant there ==> TakesAll(db, AllOps(selected[..i]))
      invariant StepsDone(disk.history, from, disk.files, root, sql, db, selected, i, current, target)
      invariant DbOf(disk.files, DbPath(root), sql) == ApplyOps(db, AllOps(selected[..i]))
    {
      StepTaken(db, selected, i);
      var failed := ExecuteOne(disk, sql, root, selected, i, from, db, current, target);
      if failed != Success {
        return Internal, i;
      }
      i := i + 1;
    }
    return Success, i;
  }

  /** One step: done whole, or, if it fails and the last file step worked, undone. */
  method ExecuteOne(disk: Disk, sql: Sql, root: string, selected: seq<Step>, i: nat, ghost from: nat,
                    ghost db: Db, ghost current: nat, ghost target: nat)
    returns (failed: Status)
    requires disk.Valid() && sql.Faithful() && i < |selected|
    requires StepsDone(disk.history, from, disk.files, root, sql, db, selected, i, current, target)
    requires DbOf(disk.files, DbPath(root), sql) == ApplyOps(db, AllOps(selected[..i]))
    modifies disk
    ensures disk.Valid() && old(disk.history) <= disk.history
    ensures StepsDone(disk.history, from, disk.files, root, sql, db, selected,
                      if failed == Success then i + 1 else i, current, target)
    ensures failed == Success ==> DbOf(disk.files, DbPath(root), sql) == ApplyOps(db, AllOps(selected[..i + 1]))
    ensures failed != Success && disk.LastWorked() ==>
      DbOf(disk.files, DbPath(root), sql) == ApplyOps(db, AllOps(selected[..i]))
    ensures DbPath(root) in disk.files <==> DbPath(root) in old(disk.files)
    ensures DbPath(root) !in disk.files ==> failed == Success
    ensures DbPath(root) in disk.files ==>
      var takes := TakesAll(ApplyOps(db, AllOps(selected[..i])), selected[i].ops);
      (failed == Success ==> takes) && (disk.AllWorked(|old(disk.history)|) && takes ==> failed == Success)
  {
    hide TakesAll, ApplyOps, AllOps, HasPrefix, AllSafe, OnlyTouches, SameExcept, Recoverable;
    ghost var h, before := disk.history, disk.files;
    failed := ApplyCols(disk, sql, DbPath(root), selected[i].ops);
    StepPoints(h, disk.history, from, before, disk.files, root, sql, db, selected, i, current, target, failed);
  }

  /** AllOps up to step i and a prefix of the next step is a prefix of AllOps. */
  lemma {:induction false} OpsPrefix(selected: seq<Step>, i: nat, k: nat) returns (m: nat)
    requires i < |selected| && k <= |selected[i].ops|
    ensures m <= |AllOps(selected)|
    ensures AllOps(selected)[..m] == AllOps(selected[..i]) + selected[i].ops[..k]
  {
    var n := |selected| - 1;
    if i == n {
      m := |AllOps(selected[..n])| + k;
    } else {
      assert selected[..n][..i] == selected[..i];
      m := OpsPrefix(selected[..n], i, k);
      assert AllOps(selected)[..m] == AllOps(selected[..n])[..m];
    }
  }

  /** The points of one step are points of the attempt. */
  lemma StepPoint(files: Files, before: Files, root: string, sql: Sql, db: Db, selected: seq<Step>,
                  i: nat, current: nat, target: nat)
    requires i < |selected| && Migratable(before, root, sql)
    requires VersionOk(before, root) && VersionOf(before, root) == current
    requires SameExcept(before, files, {DbPath(root), BackupPath(DbPath(root))})
    requires DbPath(root) in before && DbOk(db)
    requires DbOf(before, DbPath(root), sql) == ApplyOps(db, AllOps(selected[..i]))
    requires AtPrefix(files, DbPath(root), sql, DbOf(before, DbPath(root), sql), selected[i].ops)
    ensures AttemptPoint(files, root, sql, db, AllOps(selected), current, target)
    ensures VersionOf(files, root) == current
  {
    FilesAreApart(root);
    assert SameEntry(before, files, VersionPath(root));
    var ops := selected[i].ops;
    var now := DbOf(files, DbPath(root), sql);
    var k: nat :| k <= |ops| && now == ApplyOps(DbOf(before, DbPath(root), sql), ops[..k]);
    ApplyOpsConcat(db, AllOps(selected[..i]), ops[..k]);
    var m := OpsPrefix(selected, i, k);
    assert now == ApplyOps(db, AllOps(selected)[..m]);
    ApplyOpsKeepsOk(db, AllOps(selected)[..m]);
  }

  lemma StepPoints(h: seq<Files>, history: seq<Files>, from: nat, before: Files, files: Files,
                   root: string, sql: Sql, db: Db, selected: seq<Step>, i: nat, current: nat,
                   target: nat, status: Status)
    requires i < |selected| && from <= |h| && h <= history && DbOk(db)
    requires AllPoints(h, from, root, sql, db, AllOps(selected), current, target)
    requires AttemptPoint(before, root, sql, db, AllOps(selected), current, target)
    requires VersionOf(before, root) == current
    requires DbOf(before, DbPath(root), sql) == ApplyOps(db, AllOps(selected[..i]))
    requires OnlyTouches(history, |h|, before, {DbPath(root), BackupPath(DbPath(root))})
    requires SameExcept(before, files, {DbPath(root), BackupPath(DbPath(root))})
    requires DbPath(root) !in before ==> status == Success && history == h && files == before
    requires DbPath(root) in before ==>
      && AllSafe(history, |h|, DbPath(root), sql, before[DbPath(root)], selected[i].ops)
      && AtPrefix(files, DbPath(root), sql, DbOf(before, DbPath(root), sql), selected[i].ops)
      && (status == Success ==>
            DbOf(files, DbPath(root), sql) == ApplyOps(DbOf(before, DbPath(root), sql), selected[i].ops))
    ensures AllPoints(history, from, root, sql, db, AllOps(selected), current, target)
    ensures AttemptPoint(files, root, sql, db, AllOps(selected), current, target)
    ensures VersionOf(files, root) == current
    ensures status == Success ==>
      DbOf(files, DbPath(root), sql) == ApplyOps(db, AllOps(selected[..i + 1]))
  {
    assert selected[..i + 1][..i] == selected[..i];
    ApplyOpsConcat(db, AllOps(selected[..i]), selected[i].ops);
    if DbPath(root) in before {
      StepPoint(files, before, root, sql, db, selected, i, current, target);
      forall j | from <= j < |history|
        ensures AttemptPoint(history[j], root, sql, db, AllOps(selected), current, target)
      {
        if j < |h| {
          assert history[j] == h[j];
        } else {
          StepPoint(history[j], before, root, sql, db, selected, i, current, target);
        }
      }
    } else {
      NoTablesNoChange(selected[i].ops);
    }
  }

  /** A point of the closing set_version: only the version may have changed. */
  lemma VersionPoint(files: Files, before: Files, root: string, sql: Sql, db: Db, ops: seq<ColOp>,
                     current: nat, target: nat)
    requires AttemptPoint(before, root, sql, db, ops, current, target)
    requires DbOf(before, DbPath(root), sql) == ApplyOps(db, ops)
    requires SameEntry(before, files, DbPath(root)) && VersionOk(files, root)
    requires VersionOf(files, root) == current || VersionOf(files, root) == target
    ensures AttemptPoint(files, root, sql, db, ops, current, target)
    ensures DbOf(files, DbPath(root), sql) == ApplyOps(db, ops)
  {
  }

  /** The points of the closing set_version. */
  lemma VersionPoints(h: seq<Files>, history: seq<Files>, from: nat, at: nat, before: Files,
                      root: string, sql: Sql, db: Db, ops: seq<ColOp>, current: nat, target: nat)
    requires target < TWO_32 && from <= |h| && h <= history && h != []
    requires h[|h| - 1] == before && (|TmpPath(root)| < MAX_PATH_LEN || history == h)
    requires AllPoints(h, from, root, sql, db, ops, current, target)
    requires AttemptPoint(before, root, sql, db, ops, current, target)
    requires VersionOf(before, root) == current
    requires DbOf(before, DbPath(root), sql) == ApplyOps(db, ops)
    requires OnlyTouches(history, |h|, before, {VersionPath(root), TmpPath(root)})
    requires SwitchesAt(history, |h|, at, before, VersionPath(root), target)
    ensures AllPoints(history, from, root, sql, db, ops, current, target)
    ensures AttemptPoint(history[|history| - 1], root, sql, db, ops, current, target)
    ensures DbOf(history[|history| - 1], DbPath(root), sql) == ApplyOps(db, ops)
    ensures VersionOf(history[|history| - 1], root) == if at < |history| then target else current
  {
    assert VersionOk(before, root);
    if |TmpPath(root)| < MAX_PATH_LEN {
      VersionFilesAreApart(root);
    }
    hide AttemptPoint, VersionPath, TmpPath, DbPath, VersionOf, VersionOk, DbOf;
    forall j | |h| <= j < |history|
      ensures AttemptPoint(history[j], root, sql, db, ops, current, target)
      ensures DbOf(history[j], DbPath(root), sql) == ApplyOps(db, ops)
      ensures VersionOf(history[j], root) == if j < at then current else target
    {
      assert SameEntry(before, history[j], DbPath(root));
      PointsOfSet(history, |h|, at, before, root, target, j);
      VersionPoint(history[j], before, root, sql, db, ops, current, target);
    }
    forall j | from <= j < |history|
      ensures AttemptPoint(history[j], root, sql, db, ops, current, target)
    {
      if j < |h| {
        assert history[j] == h[j];
      }
    }
  }

  /** The version an attempt goes for. */
  function Goal(target: nat, latest: nat): nat {
    if target == 0 then latest else target
  }

  /** Between two versions of a chain at most 64 steps apart, the goal is reached by
      the operations of just the steps between them. */
  ghost predicate OnPath(files: Files, root: string, sql: Sql, steps: seq<Step>, db: Db, v0: nat, goal: nat) {
    forall a: nat, b: nat ::
      Chain(steps) && a < b <= |steps| && b - a <= MAX_STEPS && v0 == Point(steps, a) && goal == Point(steps, b) ==>
        VersionOf(files, root) == goal && DbOf(files, DbPath(root), sql) == ApplyOps(db, AllOps(steps[a..b]))
  }

  lemma PathIsTaken(files: Files, root: string, sql: Sql, steps: seq<Step>, db: Db, v0: nat, goal: nat)
    requires v0 < goal ==>
      VersionOf(files, root) == goal &&
      DbOf(files, DbPath(root), sql) == ApplyOps(db, AllOps(Selection(steps, v0, goal)))
    ensures OnPath(files, root, sql, steps, db, v0, goal)
  {
    forall a: nat, b: nat |
      Chain(steps) && a < b <= |steps| && b - a <= MAX_STEPS && v0 == Point(steps, a) && goal == Point(steps, b)
      ensures VersionOf(files, root) == goal
      ensures DbOf(files, DbPath(root), sql) == ApplyOps(db, AllOps(steps[a..b]))
    {
      PointsIncrease(steps, a, b);
      SelectionIsPath(steps, a, b);
    }
  }

  /** heapstore_migration_forward; `latest` is HEAPSTORE_SCHEMA_VERSION_CURRENT.
      `read` is what it read from the version file; the caller's report is written
      only when that worked. */
  method Forward(disk: Disk, sql: Sql, root: string, steps: seq<Step>, latest: nat, ready: bool, target: nat,
                 denied: bool, unreadable: bool)
    returns (status: Status, written: bool, ghost read: Result<nat>)
    requires disk.Valid() && sql.Faithful()
    requires target < TWO_32 && latest < TWO_32
    requires Migratable(disk.files, root, sql) && VersionOk(disk.files, root)
    modifies disk
    ensures disk.Valid() && old(disk.history) <= disk.history
    ensures !ready ==> status == NotInitialized
    ensures written <==> ready && read.Ok?
    ensures read.Ok? ==> read.value == old(VersionOf(disk.files, root))
    ensures ready && !denied && !unreadable ==> read.Ok?
    ensures ready && read.Err? ==> status == read.error
    ensures !ready || read.Err? || old(VersionOf(disk.files, root)) >= Goal(target, latest) ==>
      disk.files == old(disk.files) && disk.history == old(disk.history)
    ensures status == Success ==>
      VersionOf(disk.files, root) == Larger(old(VersionOf(disk.files, root)), Goal(target, latest))
    ensures old(VersionOf(disk.files, root)) < Goal(target, latest) ==>
      var db := old(DbOf(disk.files, DbPath(root), sql));
      var v0 := old(VersionOf(disk.files, root));
      var goal := Goal(target, latest);
      var ops := AllOps(Selection(steps, v0, goal));
      && AttemptDone(disk.history, |old(disk.history)|, disk.files, root, sql, db, ops, v0, goal, status)
      && (status == Success ==> old(Fits(disk.files, root, sql, ops)))
    // what the caller asked for, and CURRENT when that is 0
    ensures status == Success ==>
      var db, v0 := old(DbOf(disk.files, DbPath(root), sql)), old(VersionOf(disk.files, root));
      var asked := if target == 0 then latest else target;
      && VersionOf(disk.files, root) == (if v0 < asked then asked else v0)
      && (v0 < asked ==> DbOf(disk.files, DbPath(root), sql) == ApplyOps(db, AllOps(Selection(steps, v0, asked))))
      && OnPath(disk.files, root, sql, steps, db, v0, asked)
    // without failures it succeeds whenever it can
    ensures read.Ok? && disk.LastWorked() ==>
      var db, v0 := old(DbOf(disk.files, DbPath(root), sql)), old(VersionOf(disk.files, root));
      WholeSteps(DbOf(disk.files, DbPath(root), sql), db, Selection(steps, v0, Goal(target, latest)))
    ensures read.Ok? && disk.AllWorked(|old(disk.history)|) ==>
      var v0, goal := old(VersionOf(disk.files, root)), Goal(target, latest);
      v0 >= goal || old(Fits(disk.files, root, sql, AllOps(Selection(steps, v0, goal)))) ==> status == Success
  {
    ghost var db, v0 := DbOf(disk.files, DbPath(root), sql), VersionOf(disk.files, root);
    NothingYet(disk.files, root, sql, steps, Goal(target, latest));
    if !ready {
      return NotInitialized, false, Err(NotInitialized);
    }
    var got := GetVersion(disk, root, true, denied, unreadable);
    if got.Err? {
      return got.error, false, got;
    }
    var goal := Goal(target, latest);
    if got.value >= goal {
      PathIsTaken(disk.files, root, sql, steps, db, v0, goal);
      return Success, true, got;
    }
    var result := RunSteps(disk, sql, root, steps, got.value, goal);
    if result == Success {
      PathIsTaken(disk.files, root, sql, steps, db, v0, goal);
    }
    return result, true, got;
  }

  lemma NothingYet(files: Files, root: string, sql: Sql, steps: seq<Step>, goal: nat)
    requires Migratable(files, root, sql) && VersionOk(files, root)
    ensures var db := DbOf(files, DbPath(root), sql);
            var v0 := VersionOf(files, root);
            && AttemptPoint(files, root, sql, db, AllOps(Selection(steps, v0, goal)), v0, goal)
            && WholeSteps(db, db, Selection(steps, v0, goal))
  {
    var db := DbOf(files, DbPath(root), sql);
    var ops := AllOps(Selection(steps, VersionOf(files, root), goal));
    assert ops[..0] == [] && db == ApplyOps(db, ops[..0]);
    var selected := Selection(steps, VersionOf(files, root), goal);
    assert selected[..0] == [] && db == ApplyOps(db, AllOps(selected[..0]));
  }

  function Larger(a: nat, b: nat): nat {
    if a < b then b else a
  }

  /** Every attempt with the shipped steps may be retried. */
  lemma ShippedIsReplayable(current: nat, target: nat)
    ensures Replayable(AllOps(Selection(FORWARD_STEPS, current, target)))
  {
    ShippedTable(current, target);
    CompatibleIsReplayable(AllOps(Selection(FORWARD_STEPS, current, target)));
  }
}
