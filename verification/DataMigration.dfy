/** One migration step: back the database file up, run its column operations,
    restore on failure, drop the backup on success. */
module DataMigration {
  import opened Status
  import opened Storage
  import opened Paths
  import opened Tables

  const CHUNK: nat := 8192

  /** SQLite as a reader and writer of file images: decode gives the tables an
      image holds, and image gives the bytes of a file after its tables changed.
      An empty file is a database without tables. */
  datatype Sql = Sql(decode: Bytes -> Db, image: (Bytes, Db) -> Bytes) {
    ghost predicate Faithful() {
      && decode([]) == map[]
      && forall bytes, db :: Storable(db) ==> decode(image(bytes, db)) == db
    }
  }

  /** The tables a reader of the path finds: none when there is no file. */
  ghost function DbOf(files: Files, path: string, sql: Sql): Db {
    if path in files then sql.decode(files[path].bytes) else map[]
  }

  ghost predicate DbFileOk(files: Files, path: string, sql: Sql) {
    path in files ==> files[path].synced && Storable(sql.decode(files[path].bytes))
  }

  // ---- Backup and restore -------------------------------------------------

  /** Copies in chunks of whatever size fread gives.  When the name of the backup
      was cut back to the path itself, the file is truncated and the copy of
      nothing succeeds. */
  method BackupDataFile(disk: Disk, path: string) returns (status: Status)
    requires disk.Valid()
    modifies disk
    ensures disk.Valid() && old(disk.history) <= disk.history
    ensures OnlyTouches(disk.history, |old(disk.history)|, old(disk.files), {BackupPath(path)})
    ensures SameExcept(old(disk.files), disk.files, {BackupPath(path)})
    ensures status == Success && BackupPath(path) != path ==>
      path in old(disk.files) && BackupPath(path) in disk.files &&
      disk.files[BackupPath(path)] == File(old(disk.files[path].bytes), true)
    ensures status == Success && BackupPath(path) == path ==>
      path in disk.files && disk.files[path] == File([], true)
    ensures status == Success || status == FileOpenFailed || status == FileOperationFailed
    ensures disk.AllWorked(|old(disk.history)|) ==> (status == Success <==> path in old(disk.files))
  {
    var copy := BackupPath(path);
    ghost var from, base := |disk.history|, disk.files;
    var opens := disk.Try();
    if !opens || path !in disk.files {
      return FileOpenFailed;
    }
    ghost var begun := disk.history;
    var created := disk.OpenForWrite(copy);
    ExtendTouches(begun, from, base, {copy}, disk.files, {copy});
    if !created {
      return FileOpenFailed;
    }
    ghost var source := disk.files[path].bytes;
    var off, failed := 0, false;
    while off < |disk.files[path].bytes| && !failed
      invariant disk.Valid() && old(disk.history) <= disk.history && from <= |disk.history|
      invariant OnlyTouches(disk.history, from, base, {copy})
      invariant SameExcept(base, disk.files, {copy})
      invariant copy in disk.files && path in disk.files
      invariant disk.files[path].bytes == source && off <= |source|
      invariant disk.files[copy].bytes == source[..off]
      invariant copy == path ==> source == []
      invariant failed ==> !disk.AllWorked(from)
      decreases |source| - off, !failed
    {
      ghost var h := disk.history;
      var n := Read(disk, |disk.files[path].bytes| - off);
      ExtendTouches(h, from, base, {copy}, disk.files, {copy});
      if n == 0 {
        failed := true;
      } else {
        h := disk.history;
        var wrote := disk.Append(copy, disk.files[path].bytes[off..off + n]);
        ExtendTouches(h, from, base, {copy}, disk.files, {copy});
        if !wrote {
          return FileOperationFailed;
        }
        assert source[..off + n] == source[..off] + source[off..off + n];
        off := off + n;
      }
    }
    if failed {
      return FileOperationFailed;
    }
    assert source[..off] == source;
    ghost var h := disk.history;
    var synced := disk.Sync(copy);
    ExtendTouches(h, from, base, {copy}, disk.files, {copy});
    if !synced {
      return FileOperationFailed;
    }
    return Success;
  }

  /** fread of one chunk: at most CHUNK bytes and at most what is left, possibly
      fewer; nothing only after a read error. */
  method Read(disk: Disk, left: nat) returns (n: nat)
    requires disk.Valid() && left > 0
    modifies disk
    ensures disk.Valid() && disk.files == old(disk.files) && disk.history == old(disk.history) + [disk.files]
    ensures n <= left && n <= CHUNK
    ensures n > 0 <==> disk.works(|old(disk.history)|)
  {
    var works := disk.Try();
    var got: int := *;
    n := if !works then 0 else if 0 < got <= left && got <= CHUNK then got else 1;
  }

  method RestoreDataFile(disk: Disk, path: string) returns (status: Status)
    requires disk.Valid()
    modifies disk
    ensures disk.Valid() && disk.history == old(disk.history) + [disk.files]
    ensures status == Success <==> disk.works(|old(disk.history)|) && BackupPath(path) in old(disk.files)
    ensures status == Success ==>
      disk.files == (old(disk.files) - {BackupPath(path)})[path := old(disk.files[BackupPath(path)])]
    ensures status != Success ==> disk.files == old(disk.files)
  {
    var ok := disk.Rename(BackupPath(path), path);
    status := if ok then Success else FileOperationFailed;
  }

  // ---- Column operations --------------------------------------------------

  /** An operation succeeds having done exactly what it says, or changes nothing. */
  ghost predicate OpDone(before: Files, after: Files, path: string, sql: Sql, op: ColOp, status: Status) {
    if status == Success then
      && SameExcept(before, after, {path})
      && path in after && after[path].synced && Storable(DbOf(after, path, sql))
      && DbOf(after, path, sql) == ApplyOp(DbOf(before, path, sql), op)
    else
      after == before
  }

  /** It succeeds only if the database takes it, and then does when no step fails. */
  ghost predicate OpAnswer(db: Db, op: ColOp, status: Status, worked: bool) {
    && (status == Success || status == DbQueryFailed)
    && (status == Success ==> Takes(db, op))
    && (worked && Takes(db, op) ==> status == Success)
  }

  method AddColumnTo(disk: Disk, sql: Sql, path: string, op: ColOp) returns (status: Status)
    requires disk.Valid() && sql.Faithful() && op.AddOp?
    requires path in disk.files && DbFileOk(disk.files, path, sql)
    modifies disk
    ensures disk.Valid() && Between(old(disk.history), disk.history, old(disk.files), disk.files)
    ensures OpDone(old(disk.files), disk.files, path, sql, op, status)
    ensures OpAnswer(old(DbOf(disk.files, path, sql)), op, status, disk.AllWorked(|old(disk.history)|))
  {
    var db := sql.decode(disk.files[path].bytes);
    var pragma := disk.Try();
    if pragma && op.table in db && op.column in db[op.table].columns {
      assert db[op.table := db[op.table]] == db;
      return Success;
    }
    if op.table !in db || op.column in db[op.table].columns {
      return DbQueryFailed;
    }
    ApplyKeepsStorable(db, op);
    var ok := disk.Commit(path, sql.image(disk.files[path].bytes, ApplyOp(db, op)));
    status := if ok then Success else DbQueryFailed;
  }

  /** The loop over PRAGMA table_info that joins the names to keep. */
  method KeepColumns(columns: seq<string>, drops: seq<string>) returns (kept: seq<string>)
    ensures kept == Keep(columns, drops)
  {
    kept := [];
    var n := 0;
    while n < |columns|
      invariant n <= |columns|
      invariant kept + Keep(columns[n..], drops) == Keep(columns, drops)
    {
      var drop := IsDropped(columns[n], drops);
      assert columns[n..][0] == columns[n] && columns[n..][1..] == columns[n + 1..];
      if !drop {
        assert kept + ([columns[n]] + Keep(columns[n + 1..], drops)) ==
               (kept + [columns[n]]) + Keep(columns[n + 1..], drops);
        kept := kept + [columns[n]];
      }
      n := n + 1;
    }
  }

  /** The inner loop: a name to be dropped? */
  method IsDropped(column: string, drops: seq<string>) returns (drop: bool)
    ensures drop <==> column in drops
  {
    drop := false;
    var i := 0;
    while i < |drops| && !drop
      invariant i <= |drops|
      invariant drop ==> column in drops
      invariant !drop ==> column !in drops[..i]
    {
      drop := column == drops[i];
      i := i + 1;
    }
  }

  /** CREATE ... AS SELECT, DROP, RENAME inside a transaction: nothing shows until
      the COMMIT, and every failure rolls back. */
  method DropColumnsFrom(disk: Disk, sql: Sql, path: string, op: ColOp) returns (status: Status)
    requires disk.Valid() && sql.Faithful() && op.DropOp?
    requires path in disk.files && DbFileOk(disk.files, path, sql)
    modifies disk
    ensures disk.Valid() && Between(old(disk.history), disk.history, old(disk.files), disk.files)
    ensures OpDone(old(disk.files), disk.files, path, sql, op, status)
    ensures OpAnswer(old(DbOf(disk.files, path, sql)), op, status, disk.AllWorked(|old(disk.history)|))
  {
    var db := sql.decode(disk.files[path].bytes);
    var pragma := disk.Try();
    if !pragma || op.table !in db {
      return DbQueryFailed;
    }
    var kept := KeepColumns(db[op.table].columns, op.drops);
    if kept == [] {
      return DbQueryFailed;
    }
    assert kept[0] in kept;
    var statements := disk.Try();
    if !statements {
      return DbQueryFailed;
    }
    ApplyKeepsStorable(db, op);
    var ok := disk.Commit(path, sql.image(disk.files[path].bytes, ApplyOp(db, op)));
    status := if ok then Success else DbQueryFailed;
  }

  // ---- A whole step -------------------------------------------------------

  ghost predicate Recoverable(files: Files, path: string, original: File) {
    || (path in files && files[path] == original)
    || (BackupPath(path) in files && files[BackupPath(path)] == original)
  }

  /** The database holds a prefix of the operations, durably. */
  ghost predicate AtPrefix(files: Files, path: string, sql: Sql, db: Db, ops: seq<ColOp>) {
    && path in files && DbFileOk(files, path, sql)
    && exists k :: 0 <= k <= |ops| && sql.decode(files[path].bytes) == ApplyOps(db, ops[..k])
  }

  /** Backup safety: the exact bytes from before the step are in the database
      file or in its backup, until every operation has succeeded. */
  ghost predicate SafePoint(files: Files, path: string, sql: Sql, original: File, ops: seq<ColOp>) {
    && AtPrefix(files, path, sql, sql.decode(original.bytes), ops)
    && (Recoverable(files, path, original) ||
        sql.decode(files[path].bytes) == ApplyOps(sql.decode(original.bytes), ops))
  }

  ghost predicate AllSafe(history: seq<Files>, from: nat, path: string, sql: Sql, original: File,
                          ops: seq<ColOp>)
  {
    forall i :: from <= i < |history| ==> SafePoint(history[i], path, sql, original, ops)
  }

  /** A crash cannot take either copy away. */
  lemma CrashKeepsSafety(before: Files, after: Files, path: string, sql: Sql, original: File,
                         ops: seq<ColOp>)
    requires SafePoint(before, path, sql, original, ops) && original.synced
    requires CrashImage(before, after)
    ensures SafePoint(after, path, sql, original, ops)
  {
  }

  lemma UntouchedIsSafe(base: Files, files: Files, path: string, sql: Sql, ops: seq<ColOp>)
    requires path in base && DbFileOk(base, path, sql) && SameEntry(base, files, path)
    ensures SafePoint(files, path, sql, base[path], ops)
  {
    assert ops[..0] == [];
    assert ApplyOps(sql.decode(base[path].bytes), ops[..0]) == sql.decode(files[path].bytes);
  }

  /** A step of the migration.  If the last file step it took worked, a failure
      leaves the database exactly as it was, with no backup once the operations
      had begun, and a success leaves no backup. */
  method ApplyCols(disk: Disk, sql: Sql, path: string, ops: seq<ColOp>) returns (status: Status)
    requires disk.Valid() && sql.Faithful() && DbFileOk(disk.files, path, sql)
    modifies disk
    ensures disk.Valid() && old(disk.history) <= disk.history
    ensures OnlyTouches(disk.history, |old(disk.history)|, old(disk.files), {path, BackupPath(path)})
    ensures SameExcept(old(disk.files), disk.files, {path, BackupPath(path)})
    ensures path !in old(disk.files) ==> status == Success && disk.history == old(disk.history)
    ensures path in old(disk.files) && BackupPath(path) != path ==>
      && AllSafe(disk.history, |old(disk.history)|, path, sql, old(disk.files[path]), ops)
      && AtPrefix(disk.files, path, sql, old(DbOf(disk.files, path, sql)), ops)
      && (status == Success ==>
            DbOf(disk.files, path, sql) == ApplyOps(old(DbOf(disk.files, path, sql)), ops))
      && (status != Success ==> Recoverable(disk.files, path, old(disk.files[path])))
    ensures path in old(disk.files) && BackupPath(path) != path && disk.LastWorked() ==>
      if status == Success then BackupPath(path) !in disk.files
      else
        && path in disk.files && disk.files[path] == old(disk.files[path])
        && (status == FileOpenFailed || status == FileOperationFailed || BackupPath(path) !in disk.files)
    ensures path in old(disk.files) && BackupPath(path) != path ==>
      && (status == Success ==> TakesAll(old(DbOf(disk.files, path, sql)), ops))
      && (disk.AllWorked(|old(disk.history)|) && TakesAll(old(DbOf(disk.files, path, sql)), ops) ==>
            status == Success)
  {
    if path !in disk.files {
      return Success;
    }
    ghost var from, base := |disk.history|, disk.files;
    status := BackupDataFile(disk, path);
    BackupIsSafe(disk.history, from, base, path, sql, ops);
    UntouchedIsSafe(base, base, path, sql, ops);
    if BackupPath(path) != path {
      UntouchedIsSafe(base, disk.files, path, sql, ops);
    }
    if status != Success {
      return;
    }
    assert ops[..0] == [];
    status := RunOrRestore(disk, sql, path, ops, from, base);
  }

  /** The part of mig_apply_cols behind the backup. */
  method RunOrRestore(disk: Disk, sql: Sql, path: string, ops: seq<ColOp>, ghost from: nat, ghost base: Files)
    returns (status: Status)
    requires disk.Valid() && sql.Faithful() && path in base && DbFileOk(base, path, sql)
    requires Midway(disk.history, from, base, disk.files, path, sql, ops, 0)
    modifies disk
    ensures disk.Valid() && old(disk.history) <= disk.history
    ensures OnlyTouches(disk.history, from, base, {path, BackupPath(path)})
    ensures SameExcept(base, disk.files, {path, BackupPath(path)})
    ensures status == Success || status == DbInitFailed || status == DbQueryFailed
    ensures BackupPath(path) != path ==>
      && AllSafe(disk.history, from, path, sql, base[path], ops)
      && AtPrefix(disk.files, path, sql, sql.decode(base[path].bytes), ops)
      && (status == Success ==> DbOf(disk.files, path, sql) == ApplyOps(sql.decode(base[path].bytes), ops))
      && (status != Success ==> Recoverable(disk.files, path, base[path]))
      && (disk.LastWorked() ==> BackupPath(path) !in disk.files)
      && (disk.LastWorked() && status != Success ==> path in disk.files && disk.files[path] == base[path])
      && (status == Success ==> TakesAll(sql.decode(base[path].bytes), ops))
      && (disk.AllWorked(|old(disk.history)|) && TakesAll(sql.decode(base[path].bytes), ops) ==> status == Success)
  {
    hide OnlyTouches, SameExcept, AllSafe, SafePoint, AtPrefix, Takes, TakesAll, TakenUpTo, Storable, DbFileOk,
      ApplyOps;
    ghost var h, files := disk.history, disk.files;
    var opens := disk.Try();
    MidwayLooks(h, from, base, files, path, sql, ops);
    var failure := DbInitFailed;
    ghost var done := 0;
    if opens {
      failure, done := RunOps(disk, sql, path, ops, from, base);
    }
    TakenIsAll(sql.decode(base[path].bytes), ops, done);
    h, files := disk.history, disk.files;
    if failure == Success {
      var _ := disk.Remove(BackupPath(path));
      StepEnds(h, from, base, files, disk.files, path, sql, ops);
    } else {
      var _ := RestoreDataFile(disk, path);
      StepFails(h, from, base, files, disk.files, path, sql, ops, done);
    }
    return failure;
  }

  /** The state inside a step, after the backup and `done` operations. */
  ghost predicate Midway(history: seq<Files>, from: nat, base: Files, files: Files, path: string,
                         sql: Sql, ops: seq<ColOp>, done: nat)
    requires path in base && done <= |ops|
  {
    && from <= |history|
    && OnlyTouches(history, from, base, {path, BackupPath(path)})
    && SameExcept(base, files, {path, BackupPath(path)})
    && path in files && DbFileOk(files, path, sql)
    && (BackupPath(path) != path ==>
          && BackupPath(path) in files && files[BackupPath(path)] == base[path]
          && sql.decode(files[path].bytes) == ApplyOps(sql.decode(base[path].bytes), ops[..done])
          && AllSafe(history, from, path, sql, base[path], ops))
  }

  /** Opening the database changes nothing. */
  lemma MidwayLooks(h: seq<Files>, from: nat, base: Files, files: Files, path: string, sql: Sql, ops: seq<ColOp>)
    requires path in base && Midway(h, from, base, files, path, sql, ops, 0)
    ensures Midway(h + [files], from, base, files, path, sql, ops, 0)
  {
  }

  /** After the removal of the backup, whether or not it worked. */
  lemma StepEnds(h: seq<Files>, from: nat, base: Files, before: Files, files: Files, path: string, sql: Sql,
                 ops: seq<ColOp>)
    requires path in base && DbFileOk(base, path, sql) && Midway(h, from, base, before, path, sql, ops, |ops|)
    requires files == before || files == before - {BackupPath(path)}
    ensures OnlyTouches(h + [files], from, base, {path, BackupPath(path)})
    ensures SameExcept(base, files, {path, BackupPath(path)})
    ensures BackupPath(path) != path ==>
      && AllSafe(h + [files], from, path, sql, base[path], ops)
      && AtPrefix(files, path, sql, sql.decode(base[path].bytes), ops)
      && DbOf(files, path, sql) == ApplyOps(sql.decode(base[path].bytes), ops)
  {
    var both := {path, BackupPath(path)};
    ExtendTouches(h, from, base, both, files, both);
    if BackupPath(path) != path {
      assert ops[..|ops|] == ops;
      FullIsSafe(h, from, path, sql, base[path], ops, files);
    }
  }

  /** After the restore, whether or not the rename worked. */
  lemma StepFails(h: seq<Files>, from: nat, base: Files, before: Files, files: Files, path: string, sql: Sql,
                  ops: seq<ColOp>, done: nat)
    requires path in base && DbFileOk(base, path, sql) && done <= |ops|
    requires Midway(h, from, base, before, path, sql, ops, done)
    requires files == before || (BackupPath(path) in before &&
                                 files == (before - {BackupPath(path)})[path := before[BackupPath(path)]])
    ensures OnlyTouches(h + [files], from, base, {path, BackupPath(path)})
    ensures SameExcept(base, files, {path, BackupPath(path)})
    ensures BackupPath(path) != path ==>
      && AllSafe(h + [files], from, path, sql, base[path], ops)
      && AtPrefix(files, path, sql, sql.decode(base[path].bytes), ops)
      && Recoverable(files, path, base[path])
  {
    var both := {path, BackupPath(path)};
    ExtendTouches(h, from, base, both, files, both);
    if BackupPath(path) != path {
      FailedIsSafe(h, from, base, path, sql, ops, done, files);
    }
  }

  /** The loop over the operations of the step. */
  method RunOps(disk: Disk, sql: Sql, path: string, ops: seq<ColOp>, ghost from: nat, ghost base: Files)
    returns (status: Status, ghost done: nat)
    requires disk.Valid() && sql.Faithful() && path in base
    requires Midway(disk.history, from, base, disk.files, path, sql, ops, 0)
    modifies disk
    ensures disk.Valid() && old(disk.history) <= disk.history
    ensures status == Success || status == DbQueryFailed
    ensures done <= |ops| && (status == Success <==> done == |ops|)
    ensures Midway(disk.history, from, base, disk.files, path, sql, ops, done)
    ensures BackupPath(path) != path ==> TakenUpTo(sql.decode(base[path].bytes), ops, done)
    ensures BackupPath(path) != path && status != Success && disk.AllWorked(|old(disk.history)|) ==>
      !Takes(ApplyOps(sql.decode(base[path].bytes), ops[..done]), ops[done])
  {
    var i := 0;
    hide OnlyTouches, SameExcept, AllSafe, Takes, Storable, DbFileOk, ApplyOps, OpDone, Between;
    while i < |ops|
      invariant i <= |ops|
      invariant disk.Valid() && old(disk.history) <= disk.history
      invariant Midway(disk.history, from, base, disk.files, path, sql, ops, i)
      invariant BackupPath(path) != path ==> TakenUpTo(sql.decode(base[path].bytes), ops, i)
    {
      ghost var h, before := disk.history, disk.files;
      status := ApplyOne(disk, sql, path, ops[i]);
      MidwayStep(h, disk.history, from, base, before, disk.files, path, sql, ops, i, status);
      if status != Success {
        return status, i;
      }
      i := i + 1;
    }
    return Success, i;
  }

  /** The database takes the first operations one after the other. */
  ghost predicate TakenUpTo(db: Db, ops: seq<ColOp>, n: nat) {
    n <= |ops| && forall i :: 0 <= i < n ==> Takes(ApplyOps(db, ops[..i]), ops[i])
  }

  lemma TakenIsAll(db: Db, ops: seq<ColOp>, n: nat)
    ensures n == |ops| && TakenUpTo(db, ops, n) ==> TakesAll(db, ops)
    ensures n < |ops| && TakesAll(db, ops) ==> Takes(ApplyOps(db, ops[..n]), ops[n])
  {
  }

  lemma MidwayStep(h: seq<Files>, history: seq<Files>, from: nat, base: Files, before: Files, files: Files,
                   path: string, sql: Sql, ops: seq<ColOp>, done: nat, status: Status)
    requires path in base && done < |ops|
    requires Midway(h, from, base, before, path, sql, ops, done)
    requires Between(h, history, before, files)
    requires OpDone(before, files, path, sql, ops[done], status)
    ensures Midway(history, from, base, files, path, sql, ops, if status == Success then done + 1 else done)
  {
    var both := {path, BackupPath(path)};
    assert SameExcept(base, files, both) by {
      forall p | p !in both
        ensures SameEntry(base, files, p)
      {
        assert SameEntry(base, before, p);
      }
    }
    ExtendTouchesTo(h, history, from, base, both, before, files);
    if BackupPath(path) != path {
      assert status == Success ==> SameEntry(before, files, BackupPath(path));
      assert ops[..done + 1][..done] == ops[..done];
      OpIsSafe(before, path, sql, base[path], ops, done);
      OpIsSafe(files, path, sql, base[path], ops, if status == Success then done + 1 else done);
      SafeBetween(h, history, from, before, files, path, sql, base[path], ops);
    }
  }

  lemma SafeBetween(h: seq<Files>, history: seq<Files>, from: nat, before: Files, files: Files, path: string,
                    sql: Sql, original: File, ops: seq<ColOp>)
    requires AllSafe(h, from, path, sql, original, ops) && Between(h, history, before, files)
    requires SafePoint(before, path, sql, original, ops) && SafePoint(files, path, sql, original, ops)
    ensures AllSafe(history, from, path, sql, original, ops)
  {
  }

  method ApplyOne(disk: Disk, sql: Sql, path: string, op: ColOp) returns (status: Status)
    requires disk.Valid() && sql.Faithful()
    requires path in disk.files && DbFileOk(disk.files, path, sql)
    modifies disk
    ensures disk.Valid() && Between(old(disk.history), disk.history, old(disk.files), disk.files)
    ensures OpDone(old(disk.files), disk.files, path, sql, op, status)
    ensures OpAnswer(old(DbOf(disk.files, path, sql)), op, status, disk.AllWorked(|old(disk.history)|))
  {
    if op.DropOp? {
      status := DropColumnsFrom(disk, sql, path, op);
    } else {
      status := AddColumnTo(disk, sql, path, op);
    }
  }

  lemma BackupIsSafe(history: seq<Files>, from: nat, base: Files, path: string, sql: Sql, ops: seq<ColOp>)
    requires path in base && DbFileOk(base, path, sql)
    requires OnlyTouches(history, from, base, {BackupPath(path)})
    ensures BackupPath(path) != path ==> AllSafe(history, from, path, sql, base[path], ops)
    ensures OnlyTouches(history, from, base, {path, BackupPath(path)})
  {
    if BackupPath(path) != path {
      forall i | from <= i < |history|
        ensures SafePoint(history[i], path, sql, base[path], ops)
      {
        assert SameEntry(base, history[i], path);
        UntouchedIsSafe(base, history[i], path, sql, ops);
      }
    }
  }

  /** The state after some operations, with the backup beside it. */
  lemma OpIsSafe(files: Files, path: string, sql: Sql, original: File, ops: seq<ColOp>, done: nat)
    requires done <= |ops| && path in files && DbFileOk(files, path, sql)
    requires BackupPath(path) in files && files[BackupPath(path)] == original
    requires sql.decode(files[path].bytes) == ApplyOps(sql.decode(original.bytes), ops[..done])
    ensures SafePoint(files, path, sql, original, ops)
  {
  }

  /** After the restore of a failed step, whether or not the rename worked. */
  lemma FailedIsSafe(h: seq<Files>, from: nat, base: Files, path: string, sql: Sql, ops: seq<ColOp>,
                     done: nat, files: Files)
    requires path in base && DbFileOk(base, path, sql) && AllSafe(h, from, path, sql, base[path], ops)
    requires path in files && DbFileOk(files, path, sql) && done <= |ops|
    requires files[path] == base[path] ||
             (BackupPath(path) in files && files[BackupPath(path)] == base[path] &&
              sql.decode(files[path].bytes) == ApplyOps(sql.decode(base[path].bytes), ops[..done]))
    ensures AllSafe(h + [files], from, path, sql, base[path], ops)
    ensures SafePoint(files, path, sql, base[path], ops)
  {
    if files[path] == base[path] {
      UntouchedIsSafe(base, files, path, sql, ops);
    }
  }

  lemma FullIsSafe(h: seq<Files>, from: nat, path: string, sql: Sql, original: File, ops: seq<ColOp>,
                   files: Files)
    requires AllSafe(h, from, path, sql, original, ops)
    requires path in files && DbFileOk(files, path, sql)
    requires sql.decode(files[path].bytes) == ApplyOps(sql.decode(original.bytes), ops)
    ensures AllSafe(h + [files], from, path, sql, original, ops)
    ensures SafePoint(files, path, sql, original, ops)
  {
    assert ops[..|ops|] == ops;
  }
}
