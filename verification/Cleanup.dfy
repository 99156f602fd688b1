/** Retention cleanup: the directory walk that measures and the one that
    deletes, and what a whole cleanup reports. */
module Cleanup {
  import opened Widths
  import opened Status

  const SECONDS_PER_DAY: int := 86400

  /** Entries stand in the order readdir gives them.  A directory that is not
      readable cannot be opened. */
  datatype Node = Regular(size: nat, mtime: int) | Directory(readable: bool, entries: seq<Entry>)

  datatype Entry = Entry(name: string, node: Node)

  // ---- Measuring -------------------------------------------------------------

  /** The bytes of the files in a tree: of all, or of those a walk comes to. */
  function SizeOf(node: Node, all: bool): nat {
    match node
    case Regular(size, _) => size
    case Directory(readable, entries) => if readable || all then TotalSize(entries, all) else 0
  }

  function TotalSize(entries: seq<Entry>, all: bool): nat {
    if entries == [] then 0
    else TotalSize(entries[..|entries| - 1], all) + SizeOf(entries[|entries| - 1].node, all)
  }

  function CountOf(node: Node): nat {
    match node
    case Regular(_, _) => 1
    case Directory(readable, entries) => if readable then TotalCount(entries) else 0
  }

  function TotalCount(entries: seq<Entry>): nat {
    if entries == [] then 0
    else TotalCount(entries[..|entries| - 1]) + CountOf(entries[|entries| - 1].node)
  }

  /** heapstore_dir_size: the sums wrap like uint64_t and uint32_t. */
  method DirSize(dir: Node) returns (found: bool, size: nat, count: nat)
    ensures found <==> dir.Directory? && dir.readable
    ensures found ==> size == SizeOf(dir, false) % TWO_64 && count == CountOf(dir) % TWO_32
    ensures !found ==> size == 0 && count == 0
    decreases dir
  {
    size, count := 0, 0;
    found := dir.Directory? && dir.readable;
    if !found {
      return;
    }
    var i := 0;
    while i < |dir.entries|
      invariant i <= |dir.entries|
      invariant size == TotalSize(dir.entries[..i], false) % TWO_64
      invariant count == TotalCount(dir.entries[..i]) % TWO_32
    {
      var node := dir.entries[i].node;
      assert dir.entries[..i + 1][..i] == dir.entries[..i];
      AddWraps64(TotalSize(dir.entries[..i], false), SizeOf(node, false));
      AddWraps32(TotalCount(dir.entries[..i]), CountOf(node));
      if node.Directory? {
        var ok, subSize, subCount := DirSize(node);
        if ok {
          size, count := (size + subSize) % TWO_64, (count + subCount) % TWO_32;
        }
      } else {
        size, count := (size + node.size % TWO_64) % TWO_64, (count + 1) % TWO_32;
      }
      i := i + 1;
    }
    assert dir.entries[..i] == dir.entries;
  }

  lemma AddWraps64(a: nat, b: nat)
    ensures (a % TWO_64 + b % TWO_64) % TWO_64 == (a + b) % TWO_64
  {
  }

  lemma AddWraps32(a: nat, b: nat)
    ensures (a % TWO_32 + b % TWO_32) % TWO_32 == (a + b) % TWO_32
  {
  }

  // ---- Paths below a base directory --------------------------------------------

  function Find(entries: seq<Entry>, name: string): (i: Option<nat>)
    ensures i.Some? ==> i.value < |entries| && entries[i.value].name == name
  {
    if entries == [] then None
    else if entries[|entries| - 1].name == name then Some(|entries| - 1)
    else Find(entries[..|entries| - 1], name)
  }

  /** opendir: the entries of the directory at the path. */
  function Open(node: Node, path: seq<string>): Option<seq<Entry>>
    decreases path
  {
    if node.Regular? then None
    else if path == [] then if node.readable then Some(node.entries) else None
    else
      match Find(node.entries, path[0])
      case None => None
      case Some(i) => Open(node.entries[i].node, path[1..])
  }

  /** The tree with other entries in the directory at the path. */
  function PutAt(node: Node, path: seq<string>, entries: seq<Entry>): Node
    decreases path
  {
    if node.Regular? then node
    else if path == [] then Directory(node.readable, entries)
    else
      match Find(node.entries, path[0])
      case None => node
      case Some(i) =>
        node.(entries := node.entries[i := Entry(path[0], PutAt(node.entries[i].node, path[1..], entries))])
  }

  /** A walk from the base reaches the directory at the path. */
  ghost predicate Visible(node: Node, path: seq<string>)
    decreases path
  {
    node.Directory? && path != [] ==>
      && node.readable
      && (Find(node.entries, path[0]).Some? ==>
            Visible(node.entries[Find(node.entries, path[0]).value].node, path[1..]))
  }

  // ---- Deleting ----------------------------------------------------------------

  predicate Old(entry: Entry, cutoff: int) {
    entry.node.Regular? && entry.node.mtime < cutoff
  }

  /** What is left when unlink works on exactly the entries marked in `unlinked`. */
  function Kept(entries: seq<Entry>, cutoff: int, unlinked: seq<bool>): seq<Entry>
    requires |unlinked| == |entries|
  {
    if entries == [] then []
    else
      var n := |entries| - 1;
      Kept(entries[..n], cutoff, unlinked[..n]) +
        if Old(entries[n], cutoff) && unlinked[n] then [] else [entries[n]]
  }

  function Freed(entries: seq<Entry>, cutoff: int, unlinked: seq<bool>): nat
    requires |unlinked| == |entries|
  {
    if entries == [] then 0
    else
      var n := |entries| - 1;
      Freed(entries[..n], cutoff, unlinked[..n]) +
        if Old(entries[n], cutoff) && unlinked[n] then entries[n].node.size else 0
  }

  /** A regular file, and the directory it lies in. */
  datatype Stored = Stored(dir: seq<string>, name: string, size: nat, mtime: int)

  ghost function FilesOf(entry: Entry, at: seq<string>): set<Stored> {
    match entry.node
    case Regular(size, mtime) => {Stored(at, entry.name, size, mtime)}
    case Directory(_, entries) => FilesIn(entries, at + [entry.name])
  }

  ghost function FilesIn(entries: seq<Entry>, at: seq<string>): set<Stored> {
    if entries == [] then {}
    else FilesIn(entries[..|entries| - 1], at) + FilesOf(entries[|entries| - 1], at)
  }

  ghost function Files(node: Node): set<Stored> {
    if node.Directory? then FilesIn(node.entries, []) else {}
  }

  /** Only old files went, and only from the given directories. */
  ghost predicate OnlyOldRemoved(before: set<Stored>, after: set<Stored>, dirs: set<seq<string>>, cutoff: int) {
    after <= before && forall f :: f in before && f !in after ==> f.dir in dirs && f.mtime < cutoff
  }

  /** unlink works on the files that `unlinks` says, by directory and name. */
  type Unlinks = (seq<string>, string) -> bool

  /** The files of one directory that are due and that unlink removes. */
  ghost function Due(files: set<Stored>, dir: seq<string>, cutoff: int, unlinks: Unlinks): set<Stored> {
    set f | f in files && f.dir == dir && f.mtime < cutoff && unlinks(f.dir, f.name)
  }

  /** The files of all the directories that can be opened. */
  ghost function AllDue(root: Node, dirs: set<seq<string>>, cutoff: int, unlinks: Unlinks): set<Stored> {
    set f | f in Files(root) && f.dir in dirs && Open(root, f.dir).Some? && f.mtime < cutoff && unlinks(f.dir, f.name)
  }

  /** No directory has two entries of the same name. */
  ghost predicate Proper(node: Node) {
    node.Directory? ==>
      && (forall i, j :: 0 <= i < j < |node.entries| ==> node.entries[i].name != node.entries[j].name)
      && (forall i :: 0 <= i < |node.entries| ==> Proper(node.entries[i].node))
  }

  lemma OneMoreEntry(entries: seq<Entry>, i: nat, cutoff: int, unlinked: seq<bool>, ok: bool)
    requires i < |entries| && |unlinked| == i
    ensures Kept(entries[..i + 1], cutoff, unlinked + [ok]) ==
      Kept(entries[..i], cutoff, unlinked) + if Old(entries[i], cutoff) && ok then [] else [entries[i]]
    ensures Freed(entries[..i + 1], cutoff, unlinked + [ok]) ==
      Freed(entries[..i], cutoff, unlinked) + if Old(entries[i], cutoff) && ok then entries[i].node.size else 0
  {
    assert entries[..i + 1][..i] == entries[..i] && (unlinked + [ok])[..i] == unlinked;
  }

  lemma {:induction false} KeptSize(entries: seq<Entry>, cutoff: int, unlinked: seq<bool>, all: bool)
    requires |unlinked| == |entries|
    ensures TotalSize(Kept(entries, cutoff, unlinked), all) + Freed(entries, cutoff, unlinked) ==
            TotalSize(entries, all)
  {
    if entries != [] {
      var n := |entries| - 1;
      KeptSize(entries[..n], cutoff, unlinked[..n], all);
      var kept := Kept(entries[..n], cutoff, unlinked[..n]);
      assert (kept + [entries[n]])[..|kept|] == kept && kept + [] == kept;
    }
  }

  lemma {:induction false} KeptFiles(entries: seq<Entry>, cutoff: int, unlinked: seq<bool>, at: seq<string>)
    requires |unlinked| == |entries|
    ensures OnlyOldRemoved(FilesIn(entries, at), FilesIn(Kept(entries, cutoff, unlinked), at), {at}, cutoff)
  {
    if entries != [] {
      var n := |entries| - 1;
      KeptFiles(entries[..n], cutoff, unlinked[..n], at);
      var kept := Kept(entries[..n], cutoff, unlinked[..n]);
      assert (kept + [entries[n]])[..|kept|] == kept && kept + [] == kept;
    }
  }

  ghost predicate UnlinkedBy(entries: seq<Entry>, at: seq<string>, unlinks: Unlinks, unlinked: seq<bool>) {
    |unlinked| == |entries| && forall i :: 0 <= i < |entries| ==> unlinked[i] == unlinks(at, entries[i].name)
  }

  lemma NothingUnlinked(at: seq<string>, cutoff: int, unlinks: Unlinks)
    ensures UnlinkedBy([], at, unlinks, []) && Kept([], cutoff, []) == [] && Freed([], cutoff, []) == 0
  {
  }

  lemma CounterGoesOn(a: nat, b: nat)
    ensures (a % TWO_64 + b) % TWO_64 == (a + b) % TWO_64
  {
  }

  lemma OneMoreUnlinked(entries: seq<Entry>, i: nat, at: seq<string>, unlinks: Unlinks, unlinked: seq<bool>)
    requires i < |entries| && UnlinkedBy(entries[..i], at, unlinks, unlinked)
    ensures UnlinkedBy(entries[..i + 1], at, unlinks, unlinked + [unlinks(at, entries[i].name)])
  {
  }

  /** Where the files of an entry lie. */
  lemma {:induction false} FilesBelow(entry: Entry, at: seq<string>)
    ensures forall f :: f in FilesOf(entry, at) ==>
      if entry.node.Regular? then f.dir == at && f.name == entry.name && f.mtime == entry.node.mtime
      else at + [entry.name] <= f.dir
    decreases entry, 1, 0
  {
    if entry.node.Directory? {
      FilesInside(entry.node.entries, at + [entry.name]);
    }
  }

  lemma {:induction false} FilesInside(entries: seq<Entry>, at: seq<string>)
    ensures forall f :: f in FilesIn(entries, at) ==> at <= f.dir
    decreases entries, 0, |entries|
  {
    if entries != [] {
      var n := |entries| - 1;
      FilesInside(entries[..n], at);
      FilesBelow(entries[n], at);
      assert forall f :: f in FilesOf(entries[n], at) ==> at <= f.dir by {
        forall f | f in FilesOf(entries[n], at)
          ensures at <= f.dir
        {
          assert at <= at + [entries[n].name];
        }
      }
    }
  }

  /** Exactly the files that are due are gone from a cleaned directory. */
  lemma {:induction false} KeptExactly(entries: seq<Entry>, cutoff: int, unlinked: seq<bool>, at: seq<string>,
                                       unlinks: Unlinks)
    requires UnlinkedBy(entries, at, unlinks, unlinked)
    ensures FilesIn(Kept(entries, cutoff, unlinked), at) ==
            FilesIn(entries, at) - Due(FilesIn(entries, at), at, cutoff, unlinks)
  {
    if entries != [] {
      var n := |entries| - 1;
      KeptExactly(entries[..n], cutoff, unlinked[..n], at, unlinks);
      var kept := Kept(entries[..n], cutoff, unlinked[..n]);
      assert (kept + [entries[n]])[..|kept|] == kept && kept + [] == kept;
      hide Due, FilesIn, FilesOf;
      EntryExactly(entries[n], cutoff, at, unlinks);
      LeftOfUnion(FilesIn(entries[..n], at), FilesOf(entries[n], at), at, cutoff, unlinks);
      LastFiles(entries, at);
      LastFiles(kept + [entries[n]], at);
    }
  }

  lemma LastFiles(entries: seq<Entry>, at: seq<string>)
    requires entries != []
    ensures FilesIn(entries, at) == FilesIn(entries[..|entries| - 1], at) + FilesOf(entries[|entries| - 1], at)
  {
  }

  lemma EntryExactly(entry: Entry, cutoff: int, at: seq<string>, unlinks: Unlinks)
    ensures FilesOf(entry, at) - Due(FilesOf(entry, at), at, cutoff, unlinks) ==
            if Old(entry, cutoff) && unlinks(at, entry.name) then {} else FilesOf(entry, at)
  {
    FilesBelow(entry, at);
  }

  lemma LeftOfUnion(a: set<Stored>, b: set<Stored>, at: seq<string>, cutoff: int, unlinks: Unlinks)
    ensures (a + b) - Due(a + b, at, cutoff, unlinks) ==
            (a - Due(a, at, cutoff, unlinks)) + (b - Due(b, at, cutoff, unlinks))
  {
  }

  // ---- A change in one directory, seen from the base --------------------------------

  lemma {:induction false} ReplacedSize(entries: seq<Entry>, i: nat, entry: Entry, all: bool)
    requires i < |entries|
    ensures TotalSize(entries[i := entry], all) + SizeOf(entries[i].node, all) ==
            TotalSize(entries, all) + SizeOf(entry.node, all)
  {
    var n := |entries| - 1;
    if i < n {
      assert entries[i := entry][..n] == entries[..n][i := entry];
      ReplacedSize(entries[..n], i, entry, all);
    } else {
      assert entries[i := entry][..n] == entries[..n];
    }
  }

  lemma {:induction false} PutSize(node: Node, path: seq<string>, after: seq<Entry>, freed: nat, all: bool)
    requires (all || Visible(node, path)) && Open(node, path).Some?
    requires TotalSize(after, all) + freed == TotalSize(Open(node, path).value, all)
    ensures SizeOf(PutAt(node, path, after), all) + freed == SizeOf(node, all)
    decreases path
  {
    if path != [] {
      var i := Find(node.entries, path[0]).value;
      PutSize(node.entries[i].node, path[1..], after, freed, all);
      ReplacedSize(node.entries, i, Entry(path[0], PutAt(node.entries[i].node, path[1..], after)), all);
    }
  }

  lemma {:induction false} ReplacedFiles(entries: seq<Entry>, i: nat, entry: Entry, at: seq<string>,
                                         dirs: set<seq<string>>, cutoff: int)
    requires i < |entries|
    requires OnlyOldRemoved(FilesOf(entries[i], at), FilesOf(entry, at), dirs, cutoff)
    ensures OnlyOldRemoved(FilesIn(entries, at), FilesIn(entries[i := entry], at), dirs, cutoff)
  {
    var n := |entries| - 1;
    if i < n {
      assert entries[i := entry][..n] == entries[..n][i := entry];
      ReplacedFiles(entries[..n], i, entry, at, dirs, cutoff);
    } else {
      assert entries[i := entry][..n] == entries[..n];
    }
  }

  lemma {:induction false} PutFiles(node: Node, path: seq<string>, after: seq<Entry>, at: seq<string>, cutoff: int)
    requires Open(node, path).Some?
    requires OnlyOldRemoved(FilesIn(Open(node, path).value, at + path), FilesIn(after, at + path), {at + path}, cutoff)
    ensures node.Directory? && PutAt(node, path, after).Directory?
    ensures OnlyOldRemoved(FilesIn(node.entries, at), FilesIn(PutAt(node, path, after).entries, at),
                           {at + path}, cutoff)
    decreases path
  {
    if path == [] {
      assert at + path == at;
    } else {
      var i := Find(node.entries, path[0]).value;
      assert at + path == (at + [path[0]]) + path[1..];
      PutFiles(node.entries[i].node, path[1..], after, at + [path[0]], cutoff);
      ReplacedFiles(node.entries, i, Entry(path[0], PutAt(node.entries[i].node, path[1..], after)),
                    at, {at + path}, cutoff);
    }
  }

  lemma {:induction false} FindsLast(entries: seq<Entry>, name: string, i: nat)
    requires i < |entries| && entries[i].name == name
    requires forall j, k :: 0 <= j < k < |entries| ==> entries[j].name != entries[k].name
    ensures Find(entries, name) == Some(i)
  {
    if i < |entries| - 1 {
      FindsLast(entries[..|entries| - 1], name, i);
    }
  }

  lemma {:induction false} FindsNone(entries: seq<Entry>, name: string)
    ensures Find(entries, name).None? ==> forall i :: 0 <= i < |entries| ==> entries[i].name != name
  {
    if entries != [] {
      FindsNone(entries[..|entries| - 1], name);
    }
  }

  /** Another entry of the same name, with some of its files gone. */
  lemma {:induction false} ReplacedExactly(entries: seq<Entry>, i: nat, entry: Entry, at: seq<string>,
                                           gone: set<Stored>)
    requires i < |entries| && entry.name == entries[i].name
    requires FilesOf(entry, at) == FilesOf(entries[i], at) - gone
    requires forall j :: 0 <= j < |entries| && j != i ==> FilesOf(entries[j], at) !! gone
    ensures FilesIn(entries[i := entry], at) == FilesIn(entries, at) - gone
  {
    var n := |entries| - 1;
    if i < n {
      assert entries[i := entry][..n] == entries[..n][i := entry];
      ReplacedExactly(entries[..n], i, entry, at, gone);
    } else {
      assert entries[i := entry][..n] == entries[..n];
      UntouchedFiles(entries[..n], at, gone);
    }
  }

  lemma {:induction false} UntouchedFiles(entries: seq<Entry>, at: seq<string>, gone: set<Stored>)
    requires forall j :: 0 <= j < |entries| ==> FilesOf(entries[j], at) !! gone
    ensures FilesIn(entries, at) !! gone
  {
    if entries != [] {
      UntouchedFiles(entries[..|entries| - 1], at, gone);
    }
  }

  /** A change in one directory of a tree takes exactly these files from the tree. */
  lemma {:induction false} PutExactly(node: Node, path: seq<string>, after: seq<Entry>, at: seq<string>,
                                      gone: set<Stored>)
    requires Proper(node) && Open(node, path).Some?
    requires FilesIn(after, at + path) == FilesIn(Open(node, path).value, at + path) - gone
    requires forall f :: f in gone ==> f.dir == at + path
    ensures node.Directory? && PutAt(node, path, after).Directory?
    ensures FilesIn(PutAt(node, path, after).entries, at) == FilesIn(node.entries, at) - gone
    decreases path
  {
    if path == [] {
      assert at + path == at;
    } else {
      var i := Find(node.entries, path[0]).value;
      var entry := Entry(path[0], PutAt(node.entries[i].node, path[1..], after));
      assert at + path == (at + [path[0]]) + path[1..];
      PutExactly(node.entries[i].node, path[1..], after, at + [path[0]], gone);
      forall j | 0 <= j < |node.entries| && j != i
        ensures FilesOf(node.entries[j], at) !! gone
      {
        FilesBelow(node.entries[j], at);
        ElsewhereIs(node.entries[j].name, at, path);
      }
      ReplacedExactly(node.entries, i, entry, at, gone);
    }
  }

  lemma ElsewhereIs(name: string, at: seq<string>, path: seq<string>)
    requires path != [] && name != path[0]
    ensures at + path != at && !(at + [name] <= at + path)
  {
    assert (at + path)[|at|] == path[0] && (at + [name])[|at|] == name;
    assert |at + path| > |at|;
  }

  /** The directories, and what is in them, by name. */
  ghost predicate SameDirectories(before: seq<Entry>, after: seq<Entry>) {
    && (forall i, j :: 0 <= i < j < |after| ==> after[i].name != after[j].name)
    && (forall e :: e in after ==> e in before)
    && (forall e :: e in before && e.node.Directory? ==> e in after)
  }

  lemma {:induction false} KeptDirectories(entries: seq<Entry>, cutoff: int, unlinked: seq<bool>)
    requires |unlinked| == |entries|
    requires forall i, j :: 0 <= i < j < |entries| ==> entries[i].name != entries[j].name
    ensures SameDirectories(entries, Kept(entries, cutoff, unlinked))
  {
    if entries != [] {
      var n := |entries| - 1;
      KeptDirectories(entries[..n], cutoff, unlinked[..n]);
      assert forall e :: e in entries <==> e in entries[..n] || e == entries[n];
      var kept := Kept(entries[..n], cutoff, unlinked[..n]);
      forall i | 0 <= i < |kept|
        ensures kept[i].name != entries[n].name
      {
        assert kept[i] in entries[..n];
      }
    }
  }

  /** Cleaning a directory opens and closes no other. */
  lemma {:induction false} OpensSame(node: Node, path: seq<string>, after: seq<Entry>, other: seq<string>)
    requires Proper(node) && Open(node, path).Some? && SameDirectories(Open(node, path).value, after)
    ensures Open(PutAt(node, path, after), other).Some? <==> Open(node, other).Some?
    decreases path
  {
    if other != [] {
      if path == [] {
        FindsSame(node.entries, after, other);
      } else {
        var i := Find(node.entries, path[0]).value;
        var entry := Entry(path[0], PutAt(node.entries[i].node, path[1..], after));
        FindsReplaced(node.entries, i, entry, other[0]);
        if other[0] == path[0] {
          OpensSame(node.entries[i].node, path[1..], after, other[1..]);
        }
      }
    }
  }

  lemma FindsReplaced(entries: seq<Entry>, i: nat, entry: Entry, name: string)
    requires i < |entries| && entry.name == entries[i].name
    ensures Find(entries[i := entry], name) == Find(entries, name)
  {
    var n := |entries| - 1;
    if i < n {
      assert entries[i := entry][..n] == entries[..n][i := entry];
      FindsReplaced(entries[..n], i, entry, name);
    } else {
      assert entries[i := entry][..n] == entries[..n];
    }
  }

  lemma FindsSame(before: seq<Entry>, after: seq<Entry>, path: seq<string>)
    requires path != [] && SameDirectories(before, after)
    requires forall i, j :: 0 <= i < j < |before| ==> before[i].name != before[j].name
    ensures Open(Directory(true, after), path).Some? <==> Open(Directory(true, before), path).Some?
  {
    FindsNone(before, path[0]);
    FindsNone(after, path[0]);
    var b, a := Find(before, path[0]), Find(after, path[0]);
    if b.Some? && before[b.value].node.Directory? {
      assert before[b.value] in before && before[b.value] in after;
      var k :| 0 <= k < |after| && after[k] == before[b.value];
      FindsLast(after, path[0], k);
    }
    if a.Some? {
      assert after[a.value] in after && after[a.value] in before;
      var k :| 0 <= k < |before| && before[k] == after[a.value];
      FindsLast(before, path[0], k);
    }
  }

  lemma {:induction false} ProperStays(node: Node, path: seq<string>, after: seq<Entry>)
    requires Proper(node) && Open(node, path).Some? && SameDirectories(Open(node, path).value, after)
    ensures Proper(PutAt(node, path, after))
    decreases path
  {
    if path == [] {
      forall i | 0 <= i < |after|
        ensures Proper(after[i].node)
      {
        assert after[i] in node.entries;
      }
    } else {
      var i := Find(node.entries, path[0]).value;
      ProperStays(node.entries[i].node, path[1..], after);
    }
  }

  // ---- The cleanups ---------------------------------------------------------------

  const LOG_DIRS: seq<seq<string>> := [[], ["kernel"], ["services"], ["apps"]]

  /** A directory that can be opened, or none. */
  predicate Openable(root: Node) {
    root.Directory? ==> root.readable
  }

  /** The bytes fell by `freed`, and so did what a walk from the base finds, unless
      it finds nothing at all because the base cannot be opened. */
  ghost predicate Drop(before: Node, after: Node, freed: nat) {
    && SizeOf(after, true) + freed == SizeOf(before, true)
    && SizeOf(after, false) + (if Openable(before) then freed else 0) == SizeOf(before, false)
    && (Openable(after) <==> Openable(before))
  }

  /** heapstore_pre_clean: whether to go on, and up to which time. */
  method PreClean(initialized: bool, days: int, now: int) returns (goOn: bool, status: Status, cutoff: int)
    ensures goOn <==> initialized && days > 0
    ensures !goOn ==> status == if initialized then Success else NotInitialized
    ensures goOn ==> cutoff == now - days * SECONDS_PER_DAY
  {
    status, cutoff := Success, 0;
    if !initialized {
      return false, NotInitialized, 0;
    }
    if days <= 0 {
      return false, Success, 0;
    }
    return true, Success, now - days * SECONDS_PER_DAY;
  }

  /** One directory cleaned: exactly the files due in it are gone, and no directory
      came or went. */
  ghost predicate Cleaned(before: Node, after: Node, dirs: set<seq<string>>, cutoff: int, unlinks: Unlinks) {
    && Proper(after)
    && (forall d :: Open(after, d).Some? <==> Open(before, d).Some?)
    && Files(after) == Files(before) - AllDue(before, dirs, cutoff, unlinks)
  }

  lemma CleanedOne(before: Node, path: seq<string>, cutoff: int, unlinked: seq<bool>, unlinks: Unlinks)
    requires Proper(before) && Open(before, path).Some?
    requires UnlinkedBy(Open(before, path).value, path, unlinks, unlinked)
    ensures Cleaned(before, PutAt(before, path, Kept(Open(before, path).value, cutoff, unlinked)), {path}, cutoff,
                    unlinks)
  {
    hide Kept, Open, PutAt, Proper, Files, AllDue, SameDirectories;
    CleanedFiles(before, path, cutoff, unlinked, unlinks);
    OpenedIsProper(before, path);
    KeptDirectories(Open(before, path).value, cutoff, unlinked);
    ProperStays(before, path, Kept(Open(before, path).value, cutoff, unlinked));
    OpensAllSame(before, path, Kept(Open(before, path).value, cutoff, unlinked));
  }

  lemma OpensAllSame(node: Node, path: seq<string>, after: seq<Entry>)
    requires Proper(node) && Open(node, path).Some? && SameDirectories(Open(node, path).value, after)
    ensures forall d :: Open(PutAt(node, path, after), d).Some? <==> Open(node, d).Some?
  {
    hide Open, PutAt, Proper, SameDirectories;
    forall d
      ensures Open(PutAt(node, path, after), d).Some? <==> Open(node, d).Some?
    {
      OpensSame(node, path, after, d);
    }
  }

  lemma CleanedFiles(before: Node, path: seq<string>, cutoff: int, unlinked: seq<bool>, unlinks: Unlinks)
    requires Proper(before) && Open(before, path).Some?
    requires UnlinkedBy(Open(before, path).value, path, unlinks, unlinked)
    ensures Files(PutAt(before, path, Kept(Open(before, path).value, cutoff, unlinked))) ==
            Files(before) - AllDue(before, {path}, cutoff, unlinks)
  {
    hide Due, AllDue, Kept, FilesIn, Open, PutAt, Proper;
    var entries := Open(before, path).value;
    var kept := Kept(entries, cutoff, unlinked);
    var gone := Due(FilesIn(entries, path) + Files(before), path, cutoff, unlinks);
    KeptExactly(entries, cutoff, unlinked, path, unlinks);
    DueOfMore(FilesIn(entries, path), Files(before), path, cutoff, unlinks);
    assert [] + path == path;
    PutExactly(before, path, kept, [], gone);
    DueInTree(before, FilesIn(entries, path), path, cutoff, unlinks);
  }

  lemma DueOfMore(some: set<Stored>, others: set<Stored>, at: seq<string>, cutoff: int, unlinks: Unlinks)
    ensures some - Due(some, at, cutoff, unlinks) == some - Due(some + others, at, cutoff, unlinks)
    ensures forall f :: f in Due(some + others, at, cutoff, unlinks) ==> f.dir == at
  {
  }

  lemma DueInTree(root: Node, some: set<Stored>, path: seq<string>, cutoff: int, unlinks: Unlinks)
    requires Open(root, path).Some?
    ensures Files(root) - Due(some + Files(root), path, cutoff, unlinks) ==
            Files(root) - AllDue(root, {path}, cutoff, unlinks)
  {
  }

  lemma {:induction false} OpenedIsProper(node: Node, path: seq<string>)
    requires Proper(node) && Open(node, path).Some?
    ensures var entries := Open(node, path).value;
      forall i, j :: 0 <= i < j < |entries| ==> entries[i].name != entries[j].name
    decreases path
  {
    if path != [] {
      OpenedIsProper(node.entries[Find(node.entries, path[0]).value].node, path[1..]);
    }
  }

  lemma OneSwept(before: Node, path: seq<string>, cutoff: int, unlinked: seq<bool>)
    requires Open(before, path).Some? && |path| <= 1 && |unlinked| == |Open(before, path).value|
    ensures var entries := Open(before, path).value;
      var after := PutAt(before, path, Kept(entries, cutoff, unlinked));
      && Drop(before, after, Freed(entries, cutoff, unlinked))
      && OnlyOldRemoved(Files(before), Files(after), {path}, cutoff)
      && (path == [] ==> Openable(before))
  {
    var entries := Open(before, path).value;
    var kept, freed := Kept(entries, cutoff, unlinked), Freed(entries, cutoff, unlinked);
    KeptSize(entries, cutoff, unlinked, true);
    PutSize(before, path, kept, freed, true);
    if Openable(before) {
      KeptSize(entries, cutoff, unlinked, false);
      PutSize(before, path, kept, freed, false);
    }
    KeptFiles(entries, cutoff, unlinked, [] + path);
    PutFiles(before, path, kept, [], cutoff);
    assert [] + path == path;
  }

  lemma NoneSwept(root: Node, path: seq<string>, cutoff: int, unlinks: Unlinks)
    requires Open(root, path).None?
    ensures Drop(root, root, 0) && OnlyOldRemoved(Files(root), Files(root), {path}, cutoff)
    ensures Proper(root) ==> Cleaned(root, root, {path}, cutoff, unlinks)
  {
  }

  lemma CleanedNothing(root: Node, cutoff: int, unlinks: Unlinks)
    requires Proper(root)
    ensures Cleaned(root, root, {}, cutoff, unlinks)
  {
    assert AllDue(root, {}, cutoff, unlinks) == {};
  }

  lemma CleanedMore(a: Node, b: Node, c: Node, dirs: set<seq<string>>, path: seq<string>, cutoff: int,
                    unlinks: Unlinks)
    requires Cleaned(a, b, dirs, cutoff, unlinks) && Cleaned(b, c, {path}, cutoff, unlinks)
    ensures Cleaned(a, c, dirs + {path}, cutoff, unlinks)
  {
  }

  lemma CleanedIsProper(before: Node, after: Node, dirs: set<seq<string>>, cutoff: int, unlinks: Unlinks)
    requires Cleaned(before, after, dirs, cutoff, unlinks)
    ensures Proper(after)
  {
  }

  /** The directory of one subsystem. */
  class Partition {
    const unlinks: Unlinks
    var root: Node
    var initialized: bool

    constructor (root: Node, initialized: bool, unlinks: Unlinks)
      ensures this.root == root && this.initialized == initialized && this.unlinks == unlinks
    {
      this.root, this.initialized, this.unlinks := root, initialized, unlinks;
    }

    /** heapstore_dir_clean: adds what it freed to the caller's counter. */
    method DirClean(path: seq<string>, cutoff: int, freed: nat) returns (counter: nat, ghost unlinked: seq<bool>)
      modifies this`root
      ensures var dir := Open(old(root), path);
        if dir.None? then root == old(root) && counter == freed
        else
          && UnlinkedBy(dir.value, path, unlinks, unlinked)
          && root == PutAt(old(root), path, Kept(dir.value, cutoff, unlinked))
          && counter == (freed + Freed(dir.value, cutoff, unlinked)) % TWO_64
    {
      counter, unlinked := freed, [];
      var dir := Open(root, path);
      if dir.None? {
        return;
      }
      var kept;
      kept, counter, unlinked := UnlinkOld(dir.value, path, cutoff, freed);
      root := PutAt(root, path, kept);
    }

    /** The loop over the entries of the directory. */
    method UnlinkOld(entries: seq<Entry>, path: seq<string>, cutoff: int, freed: nat)
      returns (kept: seq<Entry>, counter: nat, ghost unlinked: seq<bool>)
      ensures UnlinkedBy(entries, path, unlinks, unlinked)
      ensures kept == Kept(entries, cutoff, unlinked)
      ensures counter == (freed + Freed(entries, cutoff, unlinked)) % TWO_64
    {
      kept, counter, unlinked := [], freed % TWO_64, [];
      var i := 0;
      ghost var total := 0;
      assert entries[..0] == [];
      hide Kept, Freed, UnlinkedBy;
      NothingUnlinked(path, cutoff, unlinks);
      while i < |entries|
        invariant i <= |entries| && |unlinked| == i
        invariant UnlinkedBy(entries[..i], path, unlinks, unlinked)
        invariant kept == Kept(entries[..i], cutoff, unlinked)
        invariant total == Freed(entries[..i], cutoff, unlinked) && counter == (freed + total) % TWO_64
      {
        var ok := unlinks(path, entries[i].name);
        OneMoreEntry(entries, i, cutoff, unlinked, ok);
        OneMoreUnlinked(entries, i, path, unlinks, unlinked);
        if entries[i].node.Regular? && entries[i].node.mtime < cutoff && ok {
          CounterGoesOn(freed + total, entries[i].node.size);
          counter := (counter + entries[i].node.size) % TWO_64;
          total := total + entries[i].node.size;
        } else {
          kept := kept + [entries[i]];
        }
        unlinked := unlinked + [ok];
        i := i + 1;
      }
      assert entries[..i] == entries;
    }

    /** One directory cleaned: the sizes fall by what the counter gained, and only
        old files of that directory are gone. */
    method CleanOne(path: seq<string>, cutoff: int, counter: nat, ghost total: nat)
      returns (counter': nat, ghost total': nat)
      requires counter == total % TWO_64 && |path| <= 1
      modifies this`root
      ensures counter' == total' % TWO_64 && total' >= total
      ensures Drop(old(root), root, total' - total)
      ensures path == [] && !Openable(old(root)) ==> total' == total
      ensures OnlyOldRemoved(Files(old(root)), Files(root), {path}, cutoff)
      ensures Proper(old(root)) ==> Cleaned(old(root), root, {path}, cutoff, unlinks)
    {
      hide Kept, Freed, Open, PutAt, UnlinkedBy, Drop, OnlyOldRemoved, Cleaned, Proper, Files;
      ghost var before, dir, unlinked := root, Open(root, path), [];
      counter', unlinked := DirClean(path, cutoff, counter);
      total' := total;
      if dir.Some? {
        total' := total + Freed(dir.value, cutoff, unlinked);
        CounterGoesOn(total, Freed(dir.value, cutoff, unlinked));
        OneSwept(before, path, cutoff, unlinked);
        if Proper(before) {
          CleanedOne(before, path, cutoff, unlinked, unlinks);
        }
      } else {
        NoneSwept(before, path, cutoff, unlinks);
      }
    }

    /** heapstore_log_cleanup and heapstore_trace_cleanup over the directories
        they clean, all at most one level below the base. */
    method Sweep(dirs: seq<seq<string>>, days: int, now: int)
      returns (status: Status, counter: nat, ghost total: nat)
      requires forall i :: 0 <= i < |dirs| ==> |dirs[i]| <= 1
      modifies this`root
      ensures status == if initialized then Success else NotInitialized
      ensures counter == total % TWO_64 && Drop(old(root), root, total)
      ensures dirs == [[]] && !Openable(old(root)) ==> total == 0
      ensures !initialized || days <= 0 ==> root == old(root) && total == 0
      ensures OnlyOldRemoved(Files(old(root)), Files(root), SetOf(dirs), now - days * SECONDS_PER_DAY)
      ensures initialized && days > 0 && Proper(old(root)) ==>
        Cleaned(old(root), root, SetOf(dirs), now - days * SECONDS_PER_DAY, unlinks)
    {
      counter, total := 0, 0;
      var goOn, cutoff;
      goOn, status, cutoff := PreClean(initialized, days, now);
      if !goOn {
        return;
      }
      status := Success;
      ghost var before := root;
      var i := 0;
      hide SizeOf, Files, PutAt, Find, Openable, Cleaned, Proper;
      if Proper(before) {
        CleanedNothing(before, cutoff, unlinks);
        assert SetOf(dirs[..0]) == {};
      }
      while i < |dirs|
        invariant i <= |dirs| && counter == total % TWO_64
        invariant Drop(before, root, total)
        invariant dirs == [[]] && !Openable(before) ==> total == 0
        invariant OnlyOldRemoved(Files(before), Files(root), SetOf(dirs[..i]), cutoff)
        invariant Proper(before) ==> Proper(root) && Cleaned(before, root, SetOf(dirs[..i]), cutoff, unlinks)
      {
        ghost var middle := root;
        assert SetOf(dirs[..i + 1]) == SetOf(dirs[..i]) + {dirs[i]};
        assert dirs == [[]] ==> dirs[i] == [];
        counter, total := CleanOne(dirs[i], cutoff, counter, total);
        if Proper(before) {
          CleanedMore(before, middle, root, SetOf(dirs[..i]), dirs[i], cutoff, unlinks);
          CleanedIsProper(middle, root, {dirs[i]}, cutoff, unlinks);
        }
        i := i + 1;
      }
      assert dirs[..i] == dirs;
    }

    /** The same for a setting of the configuration. */
    method Retain(dirs: seq<seq<string>>, days: nat, now: int) returns (status: Status, counter: nat, ghost total: nat)
      requires days < TWO_32 && forall i :: 0 <= i < |dirs| ==> |dirs[i]| <= 1
      modifies this`root
      ensures status == if initialized then Success else NotInitialized
      ensures counter == total % TWO_64 && Drop(old(root), root, total)
      ensures dirs == [[]] && !Openable(old(root)) ==> total == 0
      ensures !initialized ==> total == 0
      ensures Swept(old(root), root, initialized, dirs, days, now, unlinks)
    {
      hide Drop, OnlyOldRemoved, Cleaned, Proper, SetOf, Files;
      status, counter, total := Sweep(dirs, ToInt32(days), now);
    }
  }

  ghost function SetOf(dirs: seq<seq<string>>): set<seq<string>> {
    set d | d in dirs
  }

  /** The uint32_t setting passed as an int. */
  function ToInt32(days: nat): int
    requires days < TWO_32
  {
    if days < TWO_32 / 2 then days else days - TWO_32
  }

  /** The space of the cleaned partitions: all of it, or as heapstore_dir_size adds
      it up. */
  ghost function Used(logs: Node, spans: Node, all: bool): nat {
    SizeOf(logs, all) + SizeOf(spans, all)
  }

  /** The report is how many bytes of files are gone, and what heapstore_dir_size
      finds falls by the same number exactly when the log base can be opened or
      nothing was freed below it. */
  ghost predicate Reports(freed: nat, logs: Node, logs': Node, spans: Node, spans': Node) {
    var before, after := Used(logs, spans, true), Used(logs', spans', true);
    && before >= after && freed == (before - after) % TWO_64
    && (before < TWO_64 ==> freed == before - after)
    && (Used(logs, spans, false) - Used(logs', spans', false) == before - after <==>
        Openable(logs) || SizeOf(logs', true) == SizeOf(logs, true))
  }

  lemma ReportAddsUp(freed: nat, logs: Node, logs': Node, spans: Node, spans': Node, logTotal: nat, spanTotal: nat)
    requires Drop(logs, logs', logTotal) && Drop(spans, spans', spanTotal)
    requires !Openable(spans) ==> spanTotal == 0
    requires freed == (logTotal % TWO_64 + spanTotal % TWO_64) % TWO_64
    ensures Reports(freed, logs, logs', spans, spans')
  {
    hide SizeOf, Openable;
    AddWraps64(logTotal, spanTotal);
  }

  /** What a retention of so many days takes from a partition: with a setting the C
      code can use, exactly the files that are past it in one of the directories and
      that unlink removes; with 0 or 2^31 and more, nothing. */
  ghost predicate Swept(before: Node, after: Node, runs: bool, dirs: seq<seq<string>>, days: nat, now: int,
                        unlinks: Unlinks)
  {
    var cutoff := now - days * (24 * 60 * 60);
    if !runs || days == 0 || days >= 0x8000_0000 then after == before
    else
      && OnlyOldRemoved(Files(before), Files(after), SetOf(dirs), cutoff)
      && (Proper(before) ==> Cleaned(before, after, SetOf(dirs), cutoff, unlinks))
  }

  /** heapstore_cleanup, not a dry run: it reports exactly how many bytes of files
      are gone from the log directory and traces/spans, and takes only files past
      retention out of the directories it lists. */
  method CleanUp(ready: bool, auto: bool, logDays: nat, traceDays: nat, logs: Partition, spans: Partition,
                 logNow: int, traceNow: int)
    returns (status: Status, freed: nat)
    requires logs != spans && logDays < TWO_32 && traceDays < TWO_32
    modifies logs`root, spans`root
    ensures status == if !ready || (auto && !(logs.initialized && spans.initialized)) then NotInitialized
                      else Success
    ensures !ready || !auto ==> logs.root == old(logs.root) && spans.root == old(spans.root) && freed == 0
    ensures ready && auto ==> Reports(freed, old(logs.root), logs.root, old(spans.root), spans.root)
    ensures Swept(old(logs.root), logs.root, ready && auto && logs.initialized,
                  [[], ["kernel"], ["services"], ["apps"]], logDays, logNow, logs.unlinks)
    ensures Swept(old(spans.root), spans.root, ready && auto && spans.initialized, [[]], traceDays, traceNow,
                  spans.unlinks)
  {
    freed := 0;
    if !ready {
      return NotInitialized, 0;
    }
    if !auto {
      return Success, 0;
    }
    status := Success;
    hide SizeOf, Files, OnlyOldRemoved, SetOf, Openable, Drop, Reports, Cleaned, Proper, Swept;
    ghost var was, wasSpans := logs.root, spans.root;
    var logStatus, logFreed, logTotal := logs.Retain(LOG_DIRS, logDays, logNow);
    if logStatus == Success {
      freed := (freed + logFreed) % TWO_64;
    } else {
      status := logStatus;
    }
    var traceStatus, traceFreed, traceTotal := spans.Retain([[]], traceDays, traceNow);
    if traceStatus == Success {
      freed := (freed + traceFreed) % TWO_64;
    } else if status == Success {
      status := traceStatus;
    }
    ReportAddsUp(freed, was, logs.root, wasSpans, spans.root, logTotal, traceTotal);
  }
}
