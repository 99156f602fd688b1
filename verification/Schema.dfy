/** The tables the SQLite registry creates on start. */
module Schema {
  import opened Paths
  import opened Tables
  import opened Replay
  import opened MigrationSteps
  import opened Cells

  const AGENT_COLUMNS := ["id", "name", "type", "version", "status", "config_path", "created_at",
                          "updated_at", "priority", "tags"]
  const CAPABILITY_COLUMNS := ["agent_id", "capability"]
  const SKILL_COLUMNS := ["id", "name", "version", "library_path", "manifest_path", "installed_at"]
  const SESSION_COLUMNS := ["id", "user_id", "created_at", "last_active_at", "ttl_seconds", "status", "metadata"]

  /** CREATE TABLE IF NOT EXISTS. */
  function Create(db: Db, name: string, columns: seq<string>): Db {
    if name in db then db else db[name := Table(columns, [])]
  }

  function CreateSchema(db: Db): Db {
    Create(Create(Create(Create(db, "agents", AGENT_COLUMNS), "agent_capabilities", CAPABILITY_COLUMNS),
                  "skills", SKILL_COLUMNS),
           "sessions", SESSION_COLUMNS)
  }

  lemma CreateKeepsOk(db: Db, name: string, columns: seq<string>)
    requires Storable(db) && columns != [] && Distinct(columns)
    ensures Storable(Create(db, name, columns))
    ensures db.Keys <= Create(db, name, columns).Keys && name in Create(db, name, columns)
    ensures forall n :: n in db ==> Create(db, name, columns)[n] == db[n]
  {
  }

  lemma CreateSchemaKeepsOk(db: Db)
    requires Storable(db)
    ensures Storable(CreateSchema(db)) && HasSchema(CreateSchema(db))
    ensures forall n :: n in db ==> n in CreateSchema(db) && CreateSchema(db)[n] == db[n]
  {
    var agents := Create(db, "agents", AGENT_COLUMNS);
    var capabilities := Create(agents, "agent_capabilities", CAPABILITY_COLUMNS);
    var skills := Create(capabilities, "skills", SKILL_COLUMNS);
    hide Create, Storable;
    CreateKeepsOk(db, "agents", AGENT_COLUMNS);
    CreateKeepsOk(agents, "agent_capabilities", CAPABILITY_COLUMNS);
    CreateKeepsOk(capabilities, "skills", SKILL_COLUMNS);
    CreateKeepsOk(skills, "sessions", SESSION_COLUMNS);
  }

  /** The registry's own tables and the columns they are created with. */
  const SCHEMA: map<string, seq<string>> :=
    map["agents" := AGENT_COLUMNS, "agent_capabilities" := CAPABILITY_COLUMNS,
        "skills" := SKILL_COLUMNS, "sessions" := SESSION_COLUMNS]

  /** Only missing tables are created, empty and with their columns. */
  lemma CreatesMissing(db: Db)
    ensures CreateSchema(db).Keys == db.Keys + SCHEMA.Keys
    ensures forall n :: n in db ==> CreateSchema(db)[n] == db[n]
    ensures forall n :: n in SCHEMA && n !in db ==> CreateSchema(db)[n] == Table(SCHEMA[n], [])
  {
  }

  /** A store created afresh already has what the shipped steps add: none of them
      would change it. */
  lemma FreshNeedsNoSteps(current: nat, target: nat)
    ensures ApplyOps(CreateSchema(map[]), AllOps(Selection(FORWARD_STEPS, current, target))) == CreateSchema(map[])
  {
    var created := CreateSchema(map[]);
    var ops := AllOps(Selection(FORWARD_STEPS, current, target));
    CreatesMissing(map[]);
    forall s | s in Selection(FORWARD_STEPS, current, target)
      ensures forall i :: 0 <= i < |s.ops| ==> Settled(created, s.ops[i])
    {
      InFilter(FORWARD_STEPS, current, target, s);
    }
    AllOpsSettled(created, Selection(FORWARD_STEPS, current, target));
    SettledOpsAreNoop(created, ops);
  }

  lemma {:induction false} AllOpsSettled(db: Db, steps: seq<Step>)
    requires forall s :: s in steps ==> forall i :: 0 <= i < |s.ops| ==> Settled(db, s.ops[i])
    ensures forall i :: 0 <= i < |AllOps(steps)| ==> Settled(db, AllOps(steps)[i])
  {
    if steps != [] {
      AllOpsSettled(db, steps[..|steps| - 1]);
      assert steps[|steps| - 1] in steps;
    }
  }

  ghost predicate HasSchema(db: Db) {
    "agents" in db && "agent_capabilities" in db && "skills" in db && "sessions" in db
  }

  lemma SchemaIsThere(db: Db)
    requires HasSchema(db)
    ensures CreateSchema(db) == db
  {
  }

  /** What the registry makes of the tables of the migrated file, which is its own
      only for roots of at most 255 characters: see RegistryDbIsMigratedIff. */
  ghost function SchemaOf(root: string, db: Db): Db {
    if RegistryDbPath(root) == DbPath(root) then CreateSchema(db) else db
  }

  /** It is made once: interrupted runs of column operations keep the tables. */
  lemma SchemaStays(root: string, now: Db, db: Db, ops: seq<ColOp>)
    requires SchemaOf(root, db) == db && HasRuns(now, db, ops)
    ensures SchemaOf(root, now) == now
  {
    if RegistryDbPath(root) == DbPath(root) {
      var ks: seq<nat> :| now == AfterRuns(db, ops, ks);
      RunsKeepTables(db, ops, ks);
      SchemaWasThere(db);
      SchemaIsThere(now);
    }
  }

  lemma SchemaWasThere(db: Db)
    requires CreateSchema(db) == db
    ensures HasSchema(db)
  {
    SchemaGetsThere(db);
  }

  lemma SchemaGetsThere(db: Db)
    ensures HasSchema(CreateSchema(db)) && CreateSchema(CreateSchema(db)) == CreateSchema(db)
  {
    SchemaIsThere(CreateSchema(db));
  }
}
