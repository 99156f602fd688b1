/** The file system under the heapstore root: a map from path to bytes, changed
    by the steps the C code takes.  Every step may fail: `works` says for each
    whether it does.  `history` keeps the state after each step, so that a crash
    can be taken at any of them. */
module Storage {
  import opened Status

  type Bytes = string

  /** `synced` is false while the content may still be lost in a crash. */
  datatype File = File(bytes: Bytes, synced: bool)

  type Files = map<string, File>

  /** What a crash may leave of a state: synced files as they were; a file that
      was not synced is gone or holds anything.  Directory operations that
      returned are durable. */
  ghost predicate CrashImage(before: Files, after: Files) {
    && (forall p :: p in before && before[p].synced ==> p in after && after[p] == before[p])
    && (forall p :: p in after ==> p in before)
  }

  /** What a crash may leave when directory operations that returned are not durable
      either: for each path the entry of some state up to the crash. */
  ghost predicate LooseImage(history: seq<Files>, at: nat, after: Files)
    requires at < |history|
  {
    && (forall p :: p in after ==>
          exists i :: 0 <= i <= at && p in history[i] && (history[i][p].synced ==> after[p] == history[i][p]))
    && (forall p :: p !in after ==>
          exists i :: 0 <= i <= at && (p in history[i] ==> !history[i][p].synced))
  }

  ghost predicate SameEntry(a: Files, b: Files, path: string) {
    (path in a <==> path in b) && (path in a ==> a[path] == b[path])
  }

  ghost predicate SameExcept(a: Files, b: Files, paths: set<string>) {
    forall p :: p !in paths ==> SameEntry(a, b, p)
  }

  /** From the state at index `from` of the history on, only `paths` change. */
  ghost predicate OnlyTouches(history: seq<Files>, from: nat, base: Files, paths: set<string>) {
    forall i :: from <= i < |history| ==> SameExcept(base, history[i], paths)
  }

  lemma ExtendTouches(history: seq<Files>, from: nat, base: Files, paths: set<string>,
                      next: Files, more: set<string>)
    requires from <= |history| && OnlyTouches(history, from, base, paths)
    requires paths <= more && SameExcept(base, next, more)
    ensures OnlyTouches(history + [next], from, base, more)
  {
  }

  /** The same for several steps that led from `before` to `files`. */
  lemma ExtendTouchesTo(h: seq<Files>, history: seq<Files>, from: nat, base: Files, paths: set<string>,
                        before: Files, files: Files)
    requires from <= |h| && h <= history && OnlyTouches(h, from, base, paths)
    requires Between(h, history, before, files)
    requires SameExcept(base, before, paths) && SameExcept(base, files, paths)
    ensures OnlyTouches(history, from, base, paths)
  {
  }

  /** What came into the history since h is the state before or the one after. */
  ghost predicate Between(h: seq<Files>, history: seq<Files>, before: Files, files: Files) {
    h <= history && forall i :: |h| <= i < |history| ==> history[i] == before || history[i] == files
  }

  class Disk {
    const works: nat -> bool     // whether the step that comes after n states goes well
    var files: Files
    var history: seq<Files>

    ghost predicate Valid()
      reads this
    {
      history != [] && history[|history| - 1] == files
    }

    constructor (initial: Files, works: nat -> bool)
      ensures Valid() && files == initial && history == [initial] && this.works == works
    {
      files, history, this.works := initial, [initial], works;
    }

    /** Every step since the history had n states went well. */
    ghost predicate AllWorked(n: nat)
      reads this
    {
      forall i :: n <= i < |history| ==> works(i)
    }

    /** The last step went well. */
    ghost predicate LastWorked()
      reads this
    {
      history != [] && works(|history| - 1)
    }

    /** A step that changes nothing: an open for reading, a read, a close, or a
        statement that only looks or that a transaction still hides. */
    method Try() returns (ok: bool)
      requires Valid()
      modifies this
      ensures Valid() && history == old(history) + [files] && files == old(files)
      ensures ok <==> works(|old(history)|)
    {
      ok := works(|history|);
      history := history + [files];
    }

    /** fopen(path, "w"): creates the file or truncates it. */
    method OpenForWrite(path: string) returns (ok: bool)
      requires Valid()
      modifies this
      ensures Valid() && history == old(history) + [files]
      ensures files == if ok then old(files)[path := File([], false)] else old(files)
      ensures ok <==> works(|old(history)|)
    {
      ok := works(|history|);
      if ok {
        files := files[path := File([], false)];
      }
      history := history + [files];
    }

    /** fwrite to an open file: a failed write may leave any prefix of the data. */
    method Append(path: string, data: Bytes) returns (ok: bool)
      requires Valid() && path in files
      modifies this
      ensures Valid() && history == old(history) + [files]
      ensures path in files && files == old(files)[path := files[path]] && !files[path].synced
      ensures ok ==> files[path].bytes == old(files[path].bytes) + data
      ensures ok <==> works(|old(history)|)
    {
      ok := works(|history|);
      var written: int := *;
      if ok || !(0 <= written <= |data|) {
        written := |data|;
      }
      files := files[path := File(files[path].bytes + data[..written], false)];
      history := history + [files];
      assert data[..|data|] == data;
    }

    /** fflush and fsync. */
    method Sync(path: string) returns (ok: bool)
      requires Valid() && path in files
      modifies this
      ensures Valid() && history == old(history) + [files]
      ensures files == if ok then old(files)[path := File(old(files[path].bytes), true)] else old(files)
      ensures ok <==> works(|old(history)|)
    {
      ok := works(|history|);
      if ok {
        files := files[path := File(files[path].bytes, true)];
      }
      history := history + [files];
    }

    /** rename(2): replaces the destination in one step. */
    method Rename(source: string, target: string) returns (ok: bool)
      requires Valid()
      modifies this
      ensures Valid() && history == old(history) + [files]
      ensures ok <==> works(|old(history)|) && source in old(files)
      ensures ok ==> files == (old(files) - {source})[target := old(files[source])]
      ensures !ok ==> files == old(files)
    {
      ok := works(|history|) && source in files;
      if ok {
        files := (files - {source})[target := files[source]];
      }
      history := history + [files];
    }

    /** remove(3). */
    method Remove(path: string) returns (ok: bool)
      requires Valid()
      modifies this
      ensures Valid() && history == old(history) + [files]
      ensures files == if ok then old(files) - {path} else old(files)
      ensures ok <==> works(|old(history)|)
    {
      ok := works(|history|);
      if ok {
        files := files - {path};
      }
      history := history + [files];
    }

    /** A database statement: the file changes to the new image durably and in
        one step, or not at all. */
    method Commit(path: string, image: Bytes) returns (ok: bool)
      requires Valid()
      modifies this
      ensures Valid() && history == old(history) + [files]
      ensures files == if ok then old(files)[path := File(image, true)] else old(files)
      ensures ok <==> works(|old(history)|)
    {
      ok := works(|history|);
      if ok {
        files := files[path := File(image, true)];
      }
      history := history + [files];
    }

    /** A crash at the point `at` of the past: the disk is left with some crash
        image of the state it had there. */
    method Crash(at: nat)
      requires Valid() && at < |history|
      modifies this
      ensures Valid() && history == old(history) + [files]
      ensures CrashImage(old(history)[at], files)
    {
      var was := history[at];
      var junk: Files := *;
      files := map p | p in was && (was[p].synced || p in junk) ::
        if was[p].synced then was[p] else File(junk[p].bytes, false);
      history := history + [files];
    }

    /** The same where the directory is not durable: some paths are back at an
        earlier entry. */
    method PowerLoss(at: nat)
      requires Valid() && at < |history|
      modifies this
      ensures Valid() && history == old(history) + [files]
      ensures LooseImage(old(history), at, files)
    {
      var back: map<string, nat>, junk: Files := *, *;
      ghost var was: seq<Files> := history;
      files := map p | p in history[at].Keys + back.Keys && Left(history, at, back, junk, p).Some? ::
        Left(history, at, back, junk, p).value;
      history := history + [files];
      forall p: string
        ensures p in files ==> exists i :: 0 <= i <= at && p in was[i] && (was[i][p].synced ==> files[p] == was[i][p])
        ensures p !in files ==> exists i :: 0 <= i <= at && (p in was[i] ==> !was[i][p].synced)
      {
        assert 0 <= Back(at, back, p) <= at;
      }
    }
  }

  function Back(at: nat, back: map<string, nat>, p: string): nat {
    if p in back && back[p] <= at then back[p] else at
  }

  /** What is left of a path: the entry it is back at, if the content was safe. */
  function Left(history: seq<Files>, at: nat, back: map<string, nat>, junk: Files, p: string): Option<File>
    requires at < |history|
  {
    var files := history[Back(at, back, p)];
    if p !in files then None
    else if files[p].synced then Some(files[p])
    else if p in junk then Some(File(junk[p].bytes, false))
    else None
  }
}
