/** heapstore_init and heapstore_shutdown: the migration gate, then four
    subsystems brought up in order and torn down on failure; and the life of a
    program around them. */
module Lifecycle {
  import opened Widths
  import opened Status
  import opened Storage
  import opened Paths
  import opened Tables
  import opened Replay
  import opened VersionFile
  import opened DataMigration
  import opened MigrationSteps
  import opened ForwardMigration
  import opened Schema
  import opened LifeStages

  /** The disk is usable and its version is at least v. */
  ghost predicate Good(files: Files, root: string, sql: Sql, v: nat) {
    && Migratable(files, root, sql)
    && VersionOk(files, root)
    && VersionOf(files, root) >= v
  }

  /** What init needs of a disk at rest; the text of the version file may be bad. */
  ghost predicate Bootable(files: Files, root: string, sql: Sql) {
    && Migratable(files, root, sql)
    && (VersionPath(root) in files ==> files[VersionPath(root)].synced)
  }

  /** Nothing a reader of version or tables sees is lost in a crash. */
  lemma CrashKeepsDisk(before: Files, after: Files, root: string, sql: Sql)
    requires Migratable(before, root, sql) && VersionOk(before, root) && CrashImage(before, after)
    ensures Migratable(after, root, sql) && VersionOk(after, root)
    ensures VersionOf(after, root) == VersionOf(before, root)
    ensures DbOf(after, DbPath(root), sql) == DbOf(before, DbPath(root), sql)
  {
    CrashKeepsVersion(before, after, root);
  }

  class Heapstore {
    const disk: Disk
    const sql: Sql
    const root: string
    const steps: seq<Step>
    const latest: nat

    var ready: bool
    var registryUp: bool
    var traceUp: bool
    var memoryUp: bool
    var logUp: bool

    constructor (disk: Disk, sql: Sql, root: string, steps: seq<Step>, latest: nat)
      ensures this.disk == disk && this.sql == sql && this.root == root
      ensures this.steps == steps && this.latest == latest && Down()
    {
      this.disk, this.sql, this.root, this.steps, this.latest := disk, sql, root, steps, latest;
      ready, registryUp, traceUp, memoryUp, logUp := false, false, false, false, false;
    }

    ghost predicate Down()
      reads this
    {
      !ready && !registryUp && !traceUp && !memoryUp && !logUp
    }

    ghost predicate Up()
      reads this
    {
      ready && registryUp && traceUp && memoryUp && logUp
    }

    /** What the fixed parameters must satisfy. */
    ghost predicate Setting()
      reads this
    {
      sql.Faithful() && latest < TWO_32
    }

    ghost function DiskVersion(): nat
      reads this, disk
    {
      VersionOf(disk.files, root)
    }

    ghost function DiskTables(): Db
      reads this, disk
    {
      DbOf(disk.files, DbPath(root), sql)
    }

    /** The version can be read and written, and the tables take what init has to
        run: then only a failure can stop it. */
    ghost predicate MayStart()
      reads this, disk
    {
      VersionOk(disk.files, root) && Fits(disk.files, root, sql, FirstOps(steps, latest, DiskVersion()))
    }

    /** heapstore_migration_check. */
    method Check(denied: bool, unreadable: bool) returns (status: Status, needsMigration: bool)
      requires disk.Valid() && Setting() && ready && Bootable(disk.files, root, sql)
      modifies disk
      ensures disk.Valid() && old(disk.history) <= disk.history
      ensures !old(VersionOk(disk.files, root)) ==> status != Success && disk.history == old(disk.history)
      ensures old(VersionOk(disk.files, root)) ==>
        var v, db := old(DiskVersion()), old(DiskTables());
        && InitPoints(disk.history, |old(disk.history)|, root, sql, steps, latest, v, db)
        && InitPoint(disk.files, root, sql, steps, latest, v, db)
        && DiskTables() == db
      ensures status == Success && old(DiskVersion()) == 0 ==> DiskVersion() == latest && !needsMigration
      ensures status == Success && old(DiskVersion()) != 0 ==>
        disk.files == old(disk.files) && disk.history == old(disk.history) &&
        (needsMigration <==> DiskVersion() < latest)
      ensures old(VersionOk(disk.files, root)) && !denied && !unreadable && disk.AllWorked(|old(disk.history)|) ==>
        (old(DiskVersion()) == 0 ==> |TmpPath(root)| < MAX_PATH_LEN) ==> status == Success
    {
      InitStartsThere(root, steps, latest, VersionOf(disk.files, root), DiskTables());
      var read := GetVersion(disk, root, ready, denied, unreadable);
      if read.Err? {
        return read.error, false;
      }
      if read.value == 0 {
        status := Stamp();
        return status, false;
      }
      return Success, read.value < latest;
    }

    /** A root without a version gets the latest one. */
    method Stamp() returns (status: Status)
      requires disk.Valid() && Setting() && ready && Bootable(disk.files, root, sql)
      requires VersionOk(disk.files, root) && DiskVersion() == 0
      modifies disk
      ensures disk.Valid() && old(disk.history) <= disk.history
      ensures InitPoints(disk.history, |old(disk.history)|, root, sql, steps, latest, 0, old(DiskTables()))
      ensures InitPoint(disk.files, root, sql, steps, latest, 0, old(DiskTables()))
      ensures DiskTables() == old(DiskTables())
      ensures status == Success ==> DiskVersion() == latest
      ensures |TmpPath(root)| < MAX_PATH_LEN && disk.AllWorked(|old(disk.history)|) ==> status == Success
    {
      hide InitPoint, InitPoints, VersionOf, DbOf, OnlyTouches, SwitchesAt;
      ghost var h, before := disk.history, disk.files;
      ghost var at: nat;
      status, at := SetVersion(disk, root, ready, latest);
      StampIsInit(h, disk.history, at, before, root, sql, steps, latest);
    }

    /** The version check and, when it asks for it, the forward migration.  When
        the second read of the version fails, forward returns before it writes the
        report that init then frees: `second` is that read, and the behaviour of
        the program is undefined exactly then. */
    method Migrate(world: World) returns (status: Status, undefined: bool, ghost second: Option<Result<nat>>)
      requires disk.Valid() && Setting() && ready && Bootable(disk.files, root, sql)
      modifies disk
      ensures disk.Valid() && old(disk.history) <= disk.history
      ensures undefined <==> second.Some? && second.value.Err?
      ensures second.Some? ==> old(VersionOk(disk.files, root)) && 0 < old(DiskVersion()) < latest
      ensures status == Success && 0 < old(DiskVersion()) < latest ==> second.Some?
      ensures undefined ==> status != Success && disk.history == old(disk.history)
      ensures !old(VersionOk(disk.files, root)) ==> status != Success && disk.history == old(disk.history)
      ensures old(VersionOk(disk.files, root)) ==>
        var v, db := old(DiskVersion()), old(DiskTables());
        && InitPoints(disk.history, |old(disk.history)|, root, sql, steps, latest, v, db)
        && InitPoint(disk.files, root, sql, steps, latest, v, db)
        && (status == Success ==>
              DiskVersion() == FirstVersion(v, latest) &&
              DiskTables() == ApplyOps(db, FirstOps(steps, latest, v)))
      ensures old(MayStart()) && world.Kind() && disk.AllWorked(|old(disk.history)|) ==> status == Success
    {
      var needs: bool;
      second := None;
      status, needs := Check(world.denied, world.unreadable);
      if status != Success || !needs {
        return status, false, None;
      }
      ghost var v, db := DiskVersion(), DiskTables();
      ghost var from := |disk.history|;
      var written: bool;
      ghost var read: Result<nat>;
      status, written, read := Forward(disk, sql, root, steps, latest, ready, 0, world.deniedAgain,
                                       world.unreadableAgain);
      forall i | from <= i < |disk.history|
        ensures InitPoint(disk.history[i], root, sql, steps, latest, v, db)
      {
        AttemptIsInit(disk.history[i], root, sql, steps, latest, v, db);
      }
      AttemptIsInit(disk.files, root, sql, steps, latest, v, db);
      return if status == Success then Success else Internal, !written, Some(read);
    }

    /** heapstore_registry_init over its database file: it may create tables. */
    method InitRegistry() returns (status: Status)
      requires disk.Valid() && Setting() && Good(disk.files, root, sql, 0)
      modifies this`registryUp, disk
      ensures disk.Valid()
      ensures disk.history == old(disk.history) || disk.history == old(disk.history) + [disk.files]
      ensures Good(disk.files, root, sql, 0) && DiskVersion() == old(DiskVersion())
      ensures DiskTables() == old(DiskTables()) || DiskTables() == SchemaOf(root, old(DiskTables()))
      ensures !old(registryUp) && status == Success ==> DiskTables() == SchemaOf(root, old(DiskTables()))
      ensures registryUp <==> (old(registryUp) || status == Success)
      ensures disk.AllWorked(|old(disk.history)|) ==> status == Success
    {
      if registryUp {
        return Success;
      }
      RegistryDbIsMigratedIff(root);
      RootForSeparateBackup(root);
      var path := RegistryDbPath(root);
      var bytes := if path in disk.files then disk.files[path].bytes else [];
      var db := if path in disk.files then sql.decode(disk.files[path].bytes) else map[];
      if path == DbPath(root) {
        CreateSchemaKeepsOk(db);
      }
      var ok := disk.Commit(path, sql.image(bytes, CreateSchema(db)));
      if !ok {
        return DbInitFailed;
      }
      registryUp := true;
      return Success;
    }

    /** Init comes all the way up, with the version at the larger of what it was
        and the latest and the tables migrated and completed, or leaves everything
        down.  A version file that cannot be read for what it is fails closed:
        nothing comes up and nothing changes.  On the way the disk passes only
        what InitPoint allows.  All this unless `undefined`: see Migrate. */
    method Init(world: World) returns (status: Status, undefined: bool)
      requires disk.Valid() && Setting() && Bootable(disk.files, root, sql)
      requires ready || Down()
      modifies this, disk
      ensures disk.Valid() && old(disk.history) <= disk.history
      ensures undefined ==> !old(ready) && old(VersionOk(disk.files, root)) && 0 < old(DiskVersion()) < latest
      ensures undefined ==> disk.history == old(disk.history)
      ensures !old(VersionOk(disk.files, root)) ==> status != Success && disk.history == old(disk.history)
      ensures old(VersionOk(disk.files, root)) ==>
        var v, db := old(DiskVersion()), old(DiskTables());
        && InitPoints(disk.history, |old(disk.history)|, root, sql, steps, latest, v, db)
        && InitPoint(disk.files, root, sql, steps, latest, v, db)
        && (!old(ready) && status == Success ==>
              DiskVersion() == FirstVersion(v, latest) &&
              DiskTables() == SchemaOf(root, ApplyOps(db, FirstOps(steps, latest, v))))
      ensures old(ready) ==> status == AlreadyInitialized && disk.history == old(disk.history) &&
                             ready && registryUp == old(registryUp) && traceUp == old(traceUp) &&
                             memoryUp == old(memoryUp) && logUp == old(logUp)
      ensures !old(ready) && !undefined ==> if status == Success then Up() else Down()
      ensures undefined ==> status != Success
      ensures old(MayStart()) && !old(ready) && world.Kind() && disk.AllWorked(|old(disk.history)|) ==>
        status == Success
    {
      InitStartsThere(root, steps, latest, VersionOf(disk.files, root), DiskTables());
      if ready {
        return AlreadyInitialized, false;
      }
      if !world.directories {
        return DirCreateFailed, false;
      }
      ready := true;
      hide InitState, SchemaOf, ApplyOps, FirstOps;
      ghost var v, db, second := DiskVersion(), DiskTables(), None;
      status, undefined, second := Migrate(world);
      if status != Success {
        ready := false;
        return;
      }
      ghost var middle := disk.history;
      status := BringUp(world);
      ServedIsInit(root, steps, latest, v, db);
      assert InitPoint(disk.files, root, sql, steps, latest, v, db);
      OneMorePoint(middle, disk.history, |old(disk.history)|, disk.files, root, sql, steps, latest, v, db);
    }

    /** The subsystems, once the migration gate is passed. */
    method BringUp(world: World) returns (status: Status)
      requires disk.Valid() && Setting() && Good(disk.files, root, sql, 0)
      requires ready && !registryUp && !traceUp && !memoryUp && !logUp
      modifies this, disk
      ensures disk.Valid()
      ensures disk.history == old(disk.history) || disk.history == old(disk.history) + [disk.files]
      ensures Good(disk.files, root, sql, 0) && DiskVersion() == old(DiskVersion())
      ensures DiskTables() == old(DiskTables()) || DiskTables() == SchemaOf(root, old(DiskTables()))
      ensures if status == Success then Up() && DiskTables() == SchemaOf(root, old(DiskTables())) else Down()
      ensures world.Kind() && disk.AllWorked(|old(disk.history)|) ==> status == Success
    {
      status := InitRegistry();
      if status == Success {
        status := StartServices(world);
      }
      if status != Success {
        ready := false;
      }
    }

    /** Trace, memory and log, each undone by the failure of a later one. */
    method StartServices(world: World) returns (status: Status)
      requires registryUp && !traceUp && !memoryUp && !logUp
      modifies this`registryUp, this`traceUp, this`memoryUp, this`logUp
      ensures status == Success ==> registryUp && traceUp && memoryUp && logUp
      ensures status != Success ==> !registryUp && !traceUp && !memoryUp && !logUp
      ensures status == Success <==> world.trace && world.memory && world.log
    {
      if !world.trace {
        registryUp := false;
        return OutOfMemory;
      }
      traceUp := true;
      if !world.memory {
        traceUp := false;
        registryUp := false;
        return DirCreateFailed;
      }
      memoryUp := true;
      if !world.log {
        memoryUp := false;
        traceUp := false;
        registryUp := false;
        return FileOpenFailed;
      }
      logUp := true;
      return Success;
    }

    method Shutdown()
      modifies this
      ensures old(ready) ==> Down()
      ensures !old(ready) ==> !ready && registryUp == old(registryUp) && traceUp == old(traceUp) &&
                              memoryUp == old(memoryUp) && logUp == old(logUp)
    {
      if ready {
        logUp := false;
        traceUp := false;
        memoryUp := false;
        registryUp := false;
        ready := false;
      }
    }

    // ---- The life of a program ------------------------------------------------

    /** A crash at a point of the past ends the process; the disk keeps its version
        and tables of that point. */
    method Crash(point: nat)
      requires disk.Valid() && point < |disk.history|
      requires Good(disk.history[point], root, sql, 0)
      modifies this, disk
      ensures disk.Valid() && Down() && Good(disk.files, root, sql, 0)
      ensures DiskVersion() == old(VersionOf(disk.history[point], root))
      ensures DiskTables() == old(DbOf(disk.history[point], DbPath(root), sql))
    {
      ghost var there := disk.history[point];
      disk.Crash(point);
      CrashKeepsDisk(there, disk.files, root, sql);
      ready, registryUp, traceUp, memoryUp, logUp := false, false, false, false, false;
    }

    /** A version and tables the disk may pass in a call that began with v and db. */
    ghost predicate MayPass(call: Call, wasReady: bool, v: nat, db: Db, w: nat, now: Db)
      reads this
    {
      if call.Start? && !wasReady then InitState(now, w, root, steps, latest, v, db)
      else if call.Migration? && wasReady && v < Goal(call.target, latest) then
        var ops := AllOps(Selection(steps, v, Goal(call.target, latest)));
        (w == v && HasPrefix(now, db, ops)) || (w == Goal(call.target, latest) && now == ApplyOps(db, ops))
      else w == v && now == db
    }

    /** What a call that was not cut leaves. */
    ghost predicate Leaves(call: Call, wasReady: bool, v: nat, db: Db, status: Status)
      reads this, disk
    {
      match call
      case Start(_, _) =>
        if wasReady then ready
        else if status == Success then
          Up() && DiskVersion() == FirstVersion(v, latest) &&
          DiskTables() == SchemaOf(root, ApplyOps(db, FirstOps(steps, latest, v)))
        else Down()
      case Migration(target, _, _, _) =>
        && (ready <==> wasReady)
        && (status == Success ==>
              && wasReady && DiskVersion() == Larger(v, Goal(target, latest))
              && (v < Goal(target, latest) ==>
                    DiskTables() == ApplyOps(db, AllOps(Selection(steps, v, Goal(target, latest))))))
      case Stop(_) => Down()
    }

    ghost predicate Passing(call: Call, wasReady: bool, v: nat, db: Db, files: Files)
      reads this
    {
      && Good(files, root, sql, 0)
      && MayPass(call, wasReady, v, db, VersionOf(files, root), DbOf(files, DbPath(root), sql))
    }

    /** One call of a program, possibly cut by a crash.  When it comes to undefined
        behaviour nothing is known of the process any more. */
    method Step(call: Call) returns (status: Status, undefined: bool)
      requires disk.Valid() && Setting() && Good(disk.files, root, sql, 0)
      requires ready || Down()
      requires call.Migration? ==> call.target < TWO_32
      modifies this, disk
      ensures disk.Valid() && Passing(call, old(ready), old(DiskVersion()), old(DiskTables()), disk.files)
      ensures undefined ==> call.Start? && !old(ready) && 0 < old(DiskVersion()) < latest
      ensures !undefined ==> ready || Down()
      ensures !undefined && call.crash.Some? ==> Down()
      ensures !undefined && call.crash.None? ==>
        Leaves(call, old(ready), old(DiskVersion()), old(DiskTables()), status)
    {
      var from := |disk.history|;
      ghost var before, wasReady, v, db := disk.files, ready, DiskVersion(), DiskTables();
      status, undefined := Perform(call);
      if undefined {
        return;
      }
      if call.crash.Some? {
        var point := from - 1 + call.crash.value % (|disk.history| - from + 1);
        assert point == from - 1 ==> disk.history[point] == before;
        NothingPassed(call, wasReady, v, db);
        Crash(point);
      }
    }

    lemma NothingPassed(call: Call, wasReady: bool, v: nat, db: Db)
      ensures MayPass(call, wasReady, v, db, v, db)
    {
      InitStartsThere(root, steps, latest, v, db);
      if call.Migration? && v < Goal(call.target, latest) {
        var ops := AllOps(Selection(steps, v, Goal(call.target, latest)));
        assert ops[..0] == [] && ApplyOps(db, ops[..0]) == db;
      }
    }

    method Perform(call: Call) returns (status: Status, undefined: bool)
      requires disk.Valid() && Setting() && Good(disk.files, root, sql, 0)
      requires ready || Down()
      requires call.Migration? ==> call.target < TWO_32
      modifies this, disk
      ensures disk.Valid() && old(disk.history) <= disk.history
      ensures Passing(call, old(ready), old(DiskVersion()), old(DiskTables()), disk.files)
      ensures forall i :: |old(disk.history)| <= i < |disk.history| ==>
        Passing(call, old(ready), old(DiskVersion()), old(DiskTables()), disk.history[i])
      ensures undefined ==> call.Start? && !old(ready) && 0 < old(DiskVersion()) < latest
      ensures !undefined ==> ready || Down()
      ensures !undefined ==> Leaves(call, old(ready), old(DiskVersion()), old(DiskTables()), status)
    {
      undefined := false;
      NothingPassed(call, ready, DiskVersion(), DiskTables());
      match call {
        case Start(_, _) =>
          status, undefined := PerformStart(call);
        case Migration(_, _, _, _) =>
          status := PerformMigration(call);
        case Stop(_) =>
          Shutdown();
          status := Success;
      }
    }

    method PerformStart(call: Call) returns (status: Status, undefined: bool)
      requires disk.Valid() && Setting() && Good(disk.files, root, sql, 0)
      requires (ready || Down()) && call.Start?
      modifies this, disk
      ensures disk.Valid() && old(disk.history) <= disk.history
      ensures Passing(call, old(ready), old(DiskVersion()), old(DiskTables()), disk.files)
      ensures forall i :: |old(disk.history)| <= i < |disk.history| ==>
        Passing(call, old(ready), old(DiskVersion()), old(DiskTables()), disk.history[i])
      ensures undefined ==> !old(ready) && 0 < old(DiskVersion()) < latest
      ensures !undefined ==> ready || Down()
      ensures !undefined ==> Leaves(call, old(ready), old(DiskVersion()), old(DiskTables()), status)
    {
      ghost var up, v, db := ready, DiskVersion(), DiskTables();
      NothingPassed(call, up, v, db);
      assert Bootable(disk.files, root, sql);
      hide InitState, SchemaOf, ApplyOps, FirstOps, Migratable, VersionOk, Passing, InitPoint;
      var from := |disk.history|;
      status, undefined := Init(call.world);
      if !up {
        forall i | from <= i < |disk.history|
          ensures Passing(call, up, v, db, disk.history[i])
        {
          InitPasses(call, v, db, disk.history[i]);
        }
        InitPasses(call, v, db, disk.files);
      }
    }

    lemma InitPasses(call: Call, v: nat, db: Db, files: Files)
      requires call.Start? && InitPoint(files, root, sql, steps, latest, v, db)
      ensures Passing(call, false, v, db, files)
    {
    }

    method PerformMigration(call: Call) returns (status: Status)
      requires disk.Valid() && Setting() && Good(disk.files, root, sql, 0)
      requires (ready || Down()) && call.Migration? && call.target < TWO_32
      modifies disk
      ensures disk.Valid() && old(disk.history) <= disk.history
      ensures Passing(call, ready, old(DiskVersion()), old(DiskTables()), disk.files)
      ensures forall i :: |old(disk.history)| <= i < |disk.history| ==>
        Passing(call, ready, old(DiskVersion()), old(DiskTables()), disk.history[i])
      ensures Leaves(call, ready, old(DiskVersion()), old(DiskTables()), status)
    {
      NothingPassed(call, ready, DiskVersion(), DiskTables());
      hide ApplyOps, HasPrefix, Migratable, VersionOk;
      var written: bool;
      ghost var read: Result<nat>;
      status, written, read := Forward(disk, sql, root, steps, latest, ready, call.target, call.denied,
                                       call.unreadable);
    }

    /** No run of init, forward and shutdown, with failures and crashes anywhere,
        ever lowers the version on disk. */
    method Run(calls: seq<Call>) returns (versions: seq<nat>, undefined: bool)
      requires disk.Valid() && Setting() && Good(disk.files, root, sql, 0)
      requires ready || Down()
      requires forall i :: 0 <= i < |calls| && calls[i].Migration? ==> calls[i].target < TWO_32
      modifies this, disk
      ensures Good(disk.files, root, sql, old(DiskVersion()))
      ensures 1 <= |versions| <= |calls| + 1 && (!undefined ==> |versions| == |calls| + 1)
      ensures versions[0] == old(DiskVersion()) && versions[|versions| - 1] == DiskVersion()
      ensures forall i, j :: 0 <= i < j < |versions| ==> versions[i] <= versions[j]
    {
      var v := CurrentVersion(disk, root);
      versions, undefined := [v], false;
      var n := 0;
      while n < |calls| && !undefined
        invariant n <= |calls| && |versions| == n + 1
        invariant disk.Valid() && Good(disk.files, root, sql, old(DiskVersion()))
        invariant !undefined ==> ready || Down()
        invariant versions[0] == old(DiskVersion()) && versions[n] == DiskVersion()
        invariant forall i, j :: 0 <= i < j < |versions| ==> versions[i] <= versions[j]
      {
        var status;
        status, undefined := Step(calls[n]);
        v := CurrentVersion(disk, root);
        versions := versions + [v];
        n := n + 1;
      }
    }

    /** The disk is in a stage of the plan, and one fit for a program that is up. */
    ghost predicate OnPlan(p: Plan)
      reads this, disk
    {
      && Good(disk.files, root, sql, 0) && (ready || Down())
      && Stage(p, DiskVersion(), DiskTables())
      && (ready ==> UpStage(p, DiskVersion(), DiskTables()))
    }

    /** Any calls of init, of forward to one target and of shutdown, each possibly
        failing or cut by a crash, with a restart behind every crash; then a last
        call of forward.  If that one succeeds, version and tables are what one
        uninterrupted start and migration would have left. */
    method Retry(target: nat, calls: seq<Call>) returns (status: Status, undefined: bool)
      requires disk.Valid() && Setting() && Good(disk.files, root, sql, 0) && target < TWO_32
      requires forall i :: 0 <= i < |calls| && calls[i].Migration? ==> calls[i].target == target
      requires var p := Plan(root, steps, latest, Goal(target, latest), DiskVersion(), DiskTables());
        p.Sound() && (Down() || (ready && p.MayBeUp()))
      modifies this, disk
      ensures disk.Valid() && Good(disk.files, root, sql, old(DiskVersion()))
      ensures var p := Plan(root, steps, latest, Goal(target, latest), old(DiskVersion()), old(DiskTables()));
        && Stage(p, DiskVersion(), DiskTables())
        && (status == Success && !undefined ==> DiskVersion() == p.V2() && DiskTables() == p.Final())
        && (AddsOnly(p.Ops1()) && AddsOnly(p.Ops2()) ==> Preserves(old(DiskTables()), DiskTables()))
    {
      ghost var p := Plan(root, steps, latest, Goal(target, latest), DiskVersion(), DiskTables());
      StartsDown(p);
      if ready {
        StartsUp(p);
      }
      assert Storable(p.db0);
      status, undefined := Success, false;
      var n := 0;
      while n < |calls| && !undefined
        invariant n <= |calls| && disk.Valid() && Good(disk.files, root, sql, p.v0)
        invariant Stage(p, DiskVersion(), DiskTables()) && (!undefined ==> OnPlan(p))
      {
        status, undefined := PlanStep(p, calls[n]);
        n := n + 1;
      }
      if !undefined {
        var denied, unreadable: bool := *, *;
        status, undefined := PlanStep(p, Migration(target, denied, unreadable, None));
      }
      if AddsOnly(p.Ops1()) && AddsOnly(p.Ops2()) {
        StagesKeepData(p, DiskVersion(), DiskTables());
      }
    }

    method PlanStep(ghost p: Plan, call: Call) returns (status: Status, undefined: bool)
      requires disk.Valid() && Setting() && OnPlan(p) && p.Sound()
      requires p.root == root && p.steps == steps && p.latest == latest
      requires call.Migration? ==> call.target < TWO_32 && p.goal == Goal(call.target, latest)
      modifies this, disk
      ensures disk.Valid() && Good(disk.files, root, sql, old(DiskVersion()))
      ensures Stage(p, DiskVersion(), DiskTables()) && (!undefined ==> OnPlan(p))
      ensures call.Migration? && call.crash.None? && status == Success && !undefined ==>
        DiskVersion() == p.V2() && DiskTables() == p.Final()
    {
      ghost var up, v, db := ready, DiskVersion(), DiskTables();
      status, undefined := Step(call);
      PlanKeeps(p, call, up, v, db, DiskVersion(), DiskTables());
      if call.Migration? && up && v >= p.goal {
        NothingLeftToMigrate(p, v, db);
      }
      if call.Start? && !up {
        InitServes(p, v, db);
      }
    }

    lemma PlanKeeps(p: Plan, call: Call, up: bool, v: nat, db: Db, w: nat, now: Db)
      requires p.root == root && p.steps == steps && p.latest == latest && p.Sound()
      requires call.Migration? ==> p.goal == Goal(call.target, latest)
      requires Stage(p, v, db) && (up ==> UpStage(p, v, db)) && MayPass(call, up, v, db, w, now)
      ensures Stage(p, w, now) && w >= v
      ensures up ==> UpStage(p, w, now)
      ensures call.Migration? && up && v < p.goal && w == p.goal ==> w == p.V2() && now == p.Final()
    {
      if call.Start? && !up {
        InitKeepsStage(p, v, db, w, now);
      } else if call.Migration? && up && v < Goal(call.target, latest) {
        MigrationKeepsStage(p, v, db, w, now);
        UpIsStage(p, w, now);
      }
    }
  }

  /** What init meets besides the disk: whether the directories can be made, the two
      reads of the version file get at it, and the services come up. */
  datatype World = World(directories: bool, denied: bool, unreadable: bool, deniedAgain: bool,
                         unreadableAgain: bool, trace: bool, memory: bool, log: bool)
  {
    predicate Kind() {
      directories && !denied && !unreadable && !deniedAgain && !unreadableAgain && trace && memory && log
    }
  }

  /** A call, and the step at which a crash falls on it, if one does. */
  datatype Call =
    | Start(world: World, crash: Option<nat>)
    | Migration(target: nat, denied: bool, unreadable: bool, crash: Option<nat>)
    | Stop(crash: Option<nat>)

  /** The points of the stamp on a fresh store. */
  lemma StampIsInit(h: seq<Files>, history: seq<Files>, at: nat, before: Files, root: string, sql: Sql,
                    steps: seq<Step>, latest: nat)
    requires |TmpPath(root)| < MAX_PATH_LEN || history == h
    requires latest < TWO_32 && h <= history && h != [] && h[|h| - 1] == before
    requires Migratable(before, root, sql) && VersionOk(before, root) && VersionOf(before, root) == 0
    requires OnlyTouches(history, |h|, before, {VersionPath(root), TmpPath(root)})
    requires SwitchesAt(history, |h|, at, before, VersionPath(root), latest)
    ensures var db := DbOf(before, DbPath(root), sql);
      && InitPoints(history, |h|, root, sql, steps, latest, 0, db)
      && InitPoint(history[|history| - 1], root, sql, steps, latest, 0, db)
      && DbOf(history[|history| - 1], DbPath(root), sql) == db
      && (at < |history| ==> VersionOf(history[|history| - 1], root) == latest)
  {
    var db := DbOf(before, DbPath(root), sql);
    assert FirstOps(steps, latest, 0) == [] && ApplyOps(db, []) == db;
    if |TmpPath(root)| < MAX_PATH_LEN {
      VersionFilesAreApart(root);
    }
    forall i | |h| <= i < |history|
      ensures InitPoint(history[i], root, sql, steps, latest, 0, db)
      ensures DbOf(history[i], DbPath(root), sql) == db
      ensures i >= at ==> VersionOf(history[i], root) == latest
    {
      assert SameEntry(before, history[i], DbPath(root));
      PointsOfSet(history, |h|, at, before, root, latest, i);
    }
  }
}
