/** What init makes of a disk, and the stages a disk goes through in the life of
    a program that starts, migrates to one target, fails, crashes and restarts. */
module LifeStages {
  import opened Status
  import opened Storage
  import opened Paths
  import opened Tables
  import opened Replay
  import opened VersionFile
  import opened DataMigration
  import opened MigrationSteps
  import opened ForwardMigration
  import opened Schema

  // ---- Init ---------------------------------------------------------------

  /** The version init leaves: it stamps a fresh store and raises an old one. */
  function FirstVersion(v: nat, latest: nat): nat {
    if v == 0 then latest else Larger(v, latest)
  }

  /** The operations init runs on the way; a fresh store is stamped without any. */
  ghost function FirstOps(steps: seq<Step>, latest: nat, v: nat): seq<ColOp> {
    if 0 < v < latest then AllOps(Selection(steps, v, latest)) else []
  }

  /** A version and tables init may pass on its way from version v and tables db:
      as they were; a prefix of the operations; the new version with all of them;
      and with the tables of the registry added. */
  ghost predicate InitState(now: Db, w: nat, root: string, steps: seq<Step>, latest: nat, v: nat, db: Db) {
    || (v == 0 && w == 0 && now == db)
    || (0 < v < latest && w == v && HasPrefix(now, db, FirstOps(steps, latest, v)))
    || (w == FirstVersion(v, latest) &&
        var mid := ApplyOps(db, FirstOps(steps, latest, v));
        now == mid || now == SchemaOf(root, mid))
  }

  ghost predicate InitPoint(files: Files, root: string, sql: Sql, steps: seq<Step>, latest: nat, v: nat, db: Db) {
    && Migratable(files, root, sql) && VersionOk(files, root)
    && InitState(DbOf(files, DbPath(root), sql), VersionOf(files, root), root, steps, latest, v, db)
  }

  ghost predicate InitPoints(history: seq<Files>, from: nat, root: string, sql: Sql, steps: seq<Step>,
                             latest: nat, v: nat, db: Db)
  {
    forall i :: from <= i < |history| ==> InitPoint(history[i], root, sql, steps, latest, v, db)
  }

  lemma InitStartsThere(root: string, steps: seq<Step>, latest: nat, v: nat, db: Db)
    ensures InitState(db, v, root, steps, latest, v, db)
  {
    var ops := FirstOps(steps, latest, v);
    assert ops[..0] == [] && ApplyOps(db, ops[..0]) == db;
  }

  lemma ServedIsInit(root: string, steps: seq<Step>, latest: nat, v: nat, db: Db)
    ensures var mid := ApplyOps(db, FirstOps(steps, latest, v));
      InitState(mid, FirstVersion(v, latest), root, steps, latest, v, db) &&
      InitState(SchemaOf(root, mid), FirstVersion(v, latest), root, steps, latest, v, db)
  {
  }

  lemma OneMorePoint(middle: seq<Files>, history: seq<Files>, from: nat, files: Files, root: string, sql: Sql,
                     steps: seq<Step>, latest: nat, v: nat, db: Db)
    requires InitPoints(middle, from, root, sql, steps, latest, v, db)
    requires InitPoint(files, root, sql, steps, latest, v, db)
    requires history == middle || history == middle + [files]
    ensures InitPoints(history, from, root, sql, steps, latest, v, db)
  {
  }

  /** The points of the forward migration inside init. */
  lemma AttemptIsInit(files: Files, root: string, sql: Sql, steps: seq<Step>, latest: nat, v: nat, db: Db)
    requires 0 < v < latest
    requires AttemptPoint(files, root, sql, db, AllOps(Selection(steps, v, latest)), v, latest)
    ensures InitPoint(files, root, sql, steps, latest, v, db)
  {
  }

  // ---- The stages -----------------------------------------------------------

  /** What becomes of a disk that starts with version v0 and tables db0, when the
      program migrates to `goal`: ops1 bring it to v1 while init runs, the
      registry adds its tables, and ops2 bring it to v2. */
  datatype Plan = Plan(root: string, steps: seq<Step>, latest: nat, goal: nat, v0: nat, db0: Db)
  {
    ghost function Ops1(): seq<ColOp> { FirstOps(steps, latest, v0) }

    function V1(): nat { FirstVersion(v0, latest) }

    ghost function Mid(): Db { ApplyOps(db0, Ops1()) }

    ghost function Base(): Db { SchemaOf(root, Mid()) }

    ghost function Ops2(): seq<ColOp> {
      if V1() < goal then AllOps(Selection(steps, V1(), goal)) else []
    }

    function V2(): nat { Larger(V1(), goal) }

    ghost function Final(): Db { ApplyOps(Base(), Ops2()) }

    /** Both parts may be run again after interruptions. */
    ghost predicate Sound() {
      Replayable(Ops1()) && Replayable(Ops2())
    }

    /** The program is already up: then the tables are there, and a restart must
        not take another way than the migration. */
    ghost predicate MayBeUp() {
      0 < v0 && (latest <= v0 || goal == latest) && SchemaOf(root, db0) == db0
    }
  }

  /** Init has come through at least once. */
  ghost predicate Served(p: Plan, v: nat, db: Db) {
    || (v == p.V1() && HasRuns(db, p.Base(), p.Ops2()))
    || (v == p.V2() && db == p.Final())
  }

  ghost predicate Stage(p: Plan, v: nat, db: Db) {
    || (p.v0 == 0 && v == 0 && db == p.db0)
    || (0 < p.v0 < p.latest && v == p.v0 && HasRuns(db, p.db0, p.Ops1()))
    || (v == p.V1() && db == p.Mid())
    || Served(p, v, db)
  }

  /** What a migration may meet: a disk init has come through with, or, in a
      program that was up at the beginning, one it has not seen yet. */
  ghost predicate UpStage(p: Plan, v: nat, db: Db) {
    Served(p, v, db) || (p.MayBeUp() && p.v0 < p.latest && v == p.v0 && HasRuns(db, p.db0, p.Ops1()))
  }

  lemma StartsDown(p: Plan)
    ensures Stage(p, p.v0, p.db0)
  {
    NoRunYet(p.db0, p.Ops1());
    assert p.latest <= p.v0 ==> p.Mid() == p.db0;
  }

  lemma StartsUp(p: Plan)
    requires p.MayBeUp()
    ensures UpStage(p, p.v0, p.db0)
  {
    NoRunYet(p.db0, p.Ops1());
    NoRunYet(p.Base(), p.Ops2());
    assert p.latest <= p.v0 ==> p.Mid() == p.db0;
  }

  lemma UpIsStage(p: Plan, v: nat, db: Db)
    requires UpStage(p, v, db)
    ensures Stage(p, v, db)
  {
  }

  /** Init from any stage passes only stages, and comes out having served. */
  lemma InitKeepsStage(p: Plan, v: nat, db: Db, w: nat, now: Db)
    requires p.Sound() && Stage(p, v, db)
    requires InitState(now, w, p.root, p.steps, p.latest, v, db)
    ensures Stage(p, w, now)
  {
    NoRunYet(p.Base(), p.Ops2());
    if 0 < p.v0 < p.latest && v == p.v0 && HasRuns(db, p.db0, p.Ops1()) {
      InitFromOldVersion(p, db, w, now);
    } else if Served(p, v, db) {
      InitFromServed(p, v, db, w, now);
    } else {
      hide SchemaOf;
      assert FirstOps(p.steps, p.latest, v) == [];
      assert ApplyOps(db, []) == db;
    }
  }

  lemma InitFromOldVersion(p: Plan, db: Db, w: nat, now: Db)
    requires p.Sound() && 0 < p.v0 < p.latest && HasRuns(db, p.db0, p.Ops1())
    requires InitState(now, w, p.root, p.steps, p.latest, p.v0, db)
    ensures Stage(p, w, now)
    ensures w == p.V1() && now == SchemaOf(p.root, ApplyOps(db, p.Ops1())) ==> Served(p, w, now)
  {
    var ops := p.Ops1();
    hide SchemaOf;
    LastRun(db, p.db0, ops);
    NoRunYet(p.Base(), p.Ops2());
    if w == p.v0 {
      var k: nat :| k <= |ops| && now == ApplyOps(db, ops[..k]);
      OneMoreRun(db, p.db0, ops, k);
    }
  }

  lemma InitFromServed(p: Plan, v: nat, db: Db, w: nat, now: Db)
    requires Served(p, v, db) && InitState(now, w, p.root, p.steps, p.latest, v, db)
    ensures w == v && now == db
  {
    BaseHasSchema(p);
    FinalIsRun(p);
    SchemaStays(p.root, db, p.Base(), p.Ops2());
    hide SchemaOf, HasRuns;
    assert FirstOps(p.steps, p.latest, v) == [];
    assert ApplyOps(db, []) == db;
  }

  lemma BaseHasSchema(p: Plan)
    ensures SchemaOf(p.root, p.Base()) == p.Base()
  {
    SchemaGetsThere(p.Mid());
  }

  lemma FinalIsRun(p: Plan)
    ensures HasRuns(p.Final(), p.Base(), p.Ops2())
  {
    var ops := p.Ops2();
    NoRunYet(p.Base(), ops);
    assert ops[..|ops|] == ops;
    OneMoreRun(p.Base(), p.Base(), ops, |ops|);
  }

  lemma InitServes(p: Plan, v: nat, db: Db)
    requires p.Sound() && Stage(p, v, db)
    ensures var mid := ApplyOps(db, FirstOps(p.steps, p.latest, v));
      Served(p, FirstVersion(v, p.latest), SchemaOf(p.root, mid))
  {
    var mid := ApplyOps(db, FirstOps(p.steps, p.latest, v));
    NoRunYet(p.Base(), p.Ops2());
    if 0 < p.v0 < p.latest && v == p.v0 && HasRuns(db, p.db0, p.Ops1()) {
      LastRun(db, p.db0, p.Ops1());
    } else if Served(p, v, db) {
      InitFromServed(p, v, db, FirstVersion(v, p.latest), SchemaOf(p.root, mid));
    } else {
      hide SchemaOf;
      assert FirstOps(p.steps, p.latest, v) == [] && ApplyOps(db, []) == db;
    }
  }

  /** A migration passes only stages in which the program is up, and its success
      is the end of the plan. */
  lemma MigrationKeepsStage(p: Plan, v: nat, db: Db, w: nat, now: Db)
    requires p.Sound() && UpStage(p, v, db) && v < p.goal
    requires var ops := AllOps(Selection(p.steps, v, p.goal));
      (w == v && HasPrefix(now, db, ops)) || (w == p.goal && now == ApplyOps(db, ops))
    ensures UpStage(p, w, now)
    ensures w == p.goal ==> w == p.V2() && now == p.Final()
  {
    var ops := AllOps(Selection(p.steps, v, p.goal));
    if Served(p, v, db) {
      assert v == p.V1() && ops == p.Ops2();
      hide SchemaOf, FirstOps;
      LastRun(db, p.Base(), ops);
      if w == v {
        var k: nat :| k <= |ops| && now == ApplyOps(db, ops[..k]);
        OneMoreRun(db, p.Base(), ops, k);
      }
    } else {
      assert ops == p.Ops1() && p.goal == p.V1() && p.Ops2() == [];
      LastRun(db, p.db0, ops);
      MidHasSchema(p);
      NoRunYet(p.Base(), p.Ops2());
      hide SchemaOf, FirstOps;
      assert ApplyOps(p.Base(), []) == p.Base();
      if w == v {
        var k: nat :| k <= |ops| && now == ApplyOps(db, ops[..k]);
        OneMoreRun(db, p.db0, ops, k);
      }
    }
  }

  lemma MidHasSchema(p: Plan)
    requires p.MayBeUp()
    ensures p.Base() == p.Mid()
  {
    var ops := p.Ops1();
    NoRunYet(p.db0, ops);
    assert ops[..|ops|] == ops;
    OneMoreRun(p.db0, p.db0, ops, |ops|);
    SchemaStays(p.root, p.Mid(), p.db0, ops);
  }

  /** At or above the goal there is nothing left to do. */
  lemma NothingLeftToMigrate(p: Plan, v: nat, db: Db)
    requires UpStage(p, v, db) && v >= p.goal
    ensures v == p.V2() && db == p.Final()
  {
    if v == p.V1() && HasRuns(db, p.Base(), p.Ops2()) {
      var ks: seq<nat> :| db == AfterRuns(p.Base(), p.Ops2(), ks);
      NothingToRun(p.Base(), ks);
      assert ApplyOps(p.Base(), []) == p.Base();
    }
  }

  /** When the steps only add columns, no stage loses an original cell. */
  lemma StagesKeepData(p: Plan, v: nat, db: Db)
    requires Stage(p, v, db) && Storable(p.db0) && AddsOnly(p.Ops1()) && AddsOnly(p.Ops2())
    ensures Preserves(p.db0, db)
  {
    RunsKeepData(p.db0, p.Ops1(), []);
    SchemaPreserves(p);
    if v == p.V1() && HasRuns(db, p.Base(), p.Ops2()) {
      var ks: seq<nat> :| db == AfterRuns(p.Base(), p.Ops2(), ks);
      RunsKeepData(p.Base(), p.Ops2(), ks);
      PreservesOn(p.db0, p.Base(), db);
    } else if v == p.V2() && db == p.Final() {
      RunsKeepData(p.Base(), p.Ops2(), []);
      PreservesOn(p.db0, p.Base(), db);
    } else if 0 < p.v0 < p.latest && v == p.v0 && HasRuns(db, p.db0, p.Ops1()) {
      var ks: seq<nat> :| db == AfterRuns(p.db0, p.Ops1(), ks);
      RunsKeepData(p.db0, p.Ops1(), ks);
    }
  }

  lemma SchemaPreserves(p: Plan)
    requires Storable(p.db0) && AddsOnly(p.Ops1())
    ensures Preserves(p.db0, p.Base()) && DbOk(p.Base())
  {
    RunsKeepData(p.db0, p.Ops1(), []);
    ApplyOpsKeepsOk(p.db0, p.Ops1());
    SchemaAddsTables(p.root, p.Mid());
    PreservesOn(p.db0, p.Mid(), p.Base());
  }

  lemma SchemaAddsTables(root: string, db: Db)
    requires DbOk(db)
    ensures Preserves(db, SchemaOf(root, db)) && DbOk(SchemaOf(root, db))
  {
  }
}
