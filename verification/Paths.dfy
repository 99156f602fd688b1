/** The paths the migration code builds with snprintf into 512-byte buffers. */
module Paths {

  const MAX_PATH_LEN: nat := 512

  /** snprintf into a buffer of MAX_PATH_LEN bytes keeps one for the terminator. */
  function Fit(s: string): (t: string)
    ensures |t| < MAX_PATH_LEN && t <= s
    ensures |s| < MAX_PATH_LEN ==> t == s
    ensures |s| >= MAX_PATH_LEN ==> |t| == MAX_PATH_LEN - 1
  {
    if |s| < MAX_PATH_LEN then s else s[..MAX_PATH_LEN - 1]
  }

  const VERSION_FILE := "/.schema_version"
  const BACKUP_SUFFIX := ".pre_migration_bak"
  const DB_REL_PATH := "/registry/registry.db"

  function VersionPath(root: string): string {
    Fit(root + VERSION_FILE)
  }

  /** The temporary file of set_version, which checks that the name fits. */
  function TmpPath(root: string): string {
    VersionPath(root) + ".tmp"
  }

  function DbPath(root: string): string {
    Fit(root + DB_REL_PATH)
  }

  const REGISTRY_ROOT_LEN: nat := 256

  /** The file the registry opens: its root is first copied into 256 bytes. */
  function RegistryDbPath(root: string): string {
    (if |root| < REGISTRY_ROOT_LEN then root else root[..REGISTRY_ROOT_LEN - 1]) + DB_REL_PATH
  }

  /** The backup name is cut like any other and nobody checks it. */
  function BackupPath(path: string): string {
    Fit(path + BACKUP_SUFFIX)
  }

  /** A backup is a file of its own exactly when the name has room to grow. */
  lemma BackupIsSeparate(path: string)
    requires |path| < MAX_PATH_LEN
    ensures BackupPath(path) != path <==> |path| < MAX_PATH_LEN - 1
  {
  }

  /** In terms of the root: the backup is a separate file exactly for roots of
      at most 489 characters. */
  lemma RootForSeparateBackup(root: string)
    ensures BackupPath(DbPath(root)) != DbPath(root) <==> |root| < 490
  {
  }

  /** When set_version gets past its length check, its two files are none of
      the database file and its backup. */
  lemma VersionFilesAreApart(root: string)
    requires |TmpPath(root)| < MAX_PATH_LEN
    ensures VersionPath(root) != TmpPath(root)
    ensures {VersionPath(root), TmpPath(root)} !! {DbPath(root), BackupPath(DbPath(root))}
  {
    var at := |root| + 1;
    assert |VERSION_FILE| == 16;
    assert VersionPath(root) == root + VERSION_FILE;
    assert VersionPath(root)[at] == VERSION_FILE[1] == '.';
    assert TmpPath(root)[at] == VersionPath(root)[at];
    var db := root + DB_REL_PATH;
    assert db[at] == DB_REL_PATH[1] == 'r';
    assert DbPath(root)[at] == db[at];
    var bak := DbPath(root) + BACKUP_SUFFIX;
    assert bak[at] == DbPath(root)[at];
    assert BackupPath(DbPath(root))[at] == bak[at];
  }

  /** The registry and the migration use the same database exactly for roots of at
      most 255 characters; a longer root gives the registry a file that is neither
      the one the migration looks for nor the version file. */
  lemma RegistryDbIsMigratedIff(root: string)
    ensures RegistryDbPath(root) == DbPath(root) <==> |root| <= 255
    ensures RegistryDbPath(root) != VersionPath(root)
  {
    var registry, version := RegistryDbPath(root), VersionPath(root);
    if |root| <= 255 {
      assert registry[|root| + 1] == 'r' && version[|root| + 1] == '.';
    } else if |root| + 16 < MAX_PATH_LEN {
      assert version == root + VERSION_FILE;
      assert version[|version| - 1] == 'n' && registry[|registry| - 1] == 'b';
    }
  }
}
