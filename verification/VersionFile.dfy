/** get_version and set_version over the disk, and the atomic register they
    implement whatever fails and wherever a crash falls. */
module VersionFile {
  import opened Widths
  import opened Status
  import opened Storage
  import opened Paths
  import Text = VersionText

  /** The version file is absent, or its text is safely on disk and readable. */
  ghost predicate VersionOk(files: Files, root: string) {
    var p := VersionPath(root);
    p in files ==> files[p].synced && Text.Read(files[p].bytes).Ok?
  }

  /** The version the file holds: 0 when it is absent. */
  ghost function VersionOf(files: Files, root: string): nat {
    var p := VersionPath(root);
    if p in files && Text.Read(files[p].bytes).Ok? then Text.Read(files[p].bytes).value else 0
  }

  lemma CrashKeepsVersion(before: Files, after: Files, root: string)
    requires VersionOk(before, root) && CrashImage(before, after)
    ensures VersionOk(after, root) && VersionOf(after, root) == VersionOf(before, root)
  {
  }

  /** `denied`: the open fails for a reason other than absence.  `unreadable`:
      the file opens but fgets gets nothing out of it. */
  method GetVersion(disk: Disk, root: string, ready: bool, denied: bool, unreadable: bool)
    returns (r: Result<nat>)
    ensures !ready ==> r == Err(NotInitialized)
    ensures ready && denied ==> r == Err(FileOpenFailed)
    ensures ready && !denied && VersionPath(root) !in disk.files ==> r == Ok(0)
    ensures ready && !denied && VersionPath(root) in disk.files ==>
      r == if unreadable then Err(FileCorrupt) else Text.Read(disk.files[VersionPath(root)].bytes)
  {
    if !ready {
      return Err(NotInitialized);
    }
    var path := VersionPath(root);
    if denied {
      return Err(FileOpenFailed);
    }
    if path !in disk.files {
      return Ok(0);
    }
    if unreadable {
      return Err(FileCorrupt);
    }
    r := Text.ReadVersion(disk.files[path].bytes);
  }

  /** The version file keeps its entry up to index `at` of the history and holds
      exactly the printed version from there on. */
  ghost predicate SwitchesAt(history: seq<Files>, from: nat, at: nat, base: Files,
                             path: string, version: nat)
  {
    && from <= at <= |history|
    && (forall i :: from <= i < at ==> SameEntry(base, history[i], path))
    && (forall i :: at <= i < |history| ==>
          path in history[i] && history[i][path] == File(Text.Print(version), true))
  }

  lemma UntouchedSwitch(history: seq<Files>, from: nat, base: Files, path: string, tmp: string, version: nat)
    requires from <= |history| && path != tmp && OnlyTouches(history, from, base, {tmp})
    ensures SwitchesAt(history, from, |history|, base, path, version)
    ensures OnlyTouches(history, from, base, {path, tmp})
  {
  }

  method SetVersion(disk: Disk, root: string, ready: bool, version: nat)
    returns (status: Status, ghost at: nat)
    requires disk.Valid() && version < TWO_32
    modifies disk
    ensures disk.Valid() && old(disk.history) <= disk.history
    ensures OnlyTouches(disk.history, |old(disk.history)|, old(disk.files),
                        {VersionPath(root), TmpPath(root)})
    ensures SwitchesAt(disk.history, |old(disk.history)|, at, old(disk.files),
                       VersionPath(root), version)
    ensures status == Success <==> at < |disk.history|
    ensures status == Success ==> TmpPath(root) !in disk.files
    ensures !ready ==> status == NotInitialized
    ensures ready ==> (status == ConfigInvalid <==> |TmpPath(root)| >= MAX_PATH_LEN)
    ensures !ready || |TmpPath(root)| >= MAX_PATH_LEN ==> disk.history == old(disk.history)
    ensures ready && |TmpPath(root)| < MAX_PATH_LEN && disk.AllWorked(|old(disk.history)|) ==> status == Success
  {
    at := |disk.history|;
    if !ready {
      return NotInitialized, at;
    }
    var path := VersionPath(root);
    var tmp := TmpPath(root);
    if |tmp| >= MAX_PATH_LEN {
      return ConfigInvalid, at;
    }
    var from := |disk.history|;
    ghost var base := disk.files;
    status := WriteTemporary(disk, tmp, Text.Print(version));
    at := |disk.history|;
    if status != Success {
      return;
    }
    assert path != tmp;
    ghost var written, midway := disk.files, disk.history;
    var renamed := disk.Rename(tmp, path);
    ExtendTouches(midway, from, base, {tmp}, disk.files, if renamed then {path, tmp} else {tmp});
    if !renamed {
      ghost var stuck := disk.history;
      var _ := disk.Remove(tmp);
      ExtendTouches(stuck, from, base, {tmp}, disk.files, {tmp});
      UntouchedSwitch(disk.history, from, base, path, tmp, version);
      return FileOperationFailed, |disk.history|;
    }
  }

  /** The part of set_version that works on the temporary file alone. */
  method WriteTemporary(disk: Disk, tmp: string, text: string) returns (status: Status)
    requires disk.Valid()
    modifies disk
    ensures disk.Valid() && old(disk.history) <= disk.history
    ensures |disk.history| > |old(disk.history)|
    ensures OnlyTouches(disk.history, |old(disk.history)|, old(disk.files), {tmp})
    ensures status != NotInitialized && status != ConfigInvalid
    ensures status == Success ==> tmp in disk.files && disk.files[tmp] == File(text, true)
    ensures disk.AllWorked(|old(disk.history)|) ==> status == Success
  {
    ghost var from, base := |disk.history|, disk.files;
    var created := disk.OpenForWrite(tmp);
    if !created {
      return FileOpenFailed;
    }
    ghost var h := disk.history;
    var flushed := disk.Append(tmp, text);
    ExtendTouches(h, from, base, {tmp}, disk.files, {tmp});
    if flushed {
      h := disk.history;
      flushed := disk.Sync(tmp);
      ExtendTouches(h, from, base, {tmp}, disk.files, {tmp});
    }
    var closed := flushed;
    if flushed {
      h := disk.history;
      closed := disk.Try();
      ExtendTouches(h, from, base, {tmp}, disk.files, {tmp});
    }
    if !closed {
      h := disk.history;
      var _ := disk.Remove(tmp);
      ExtendTouches(h, from, base, {tmp}, disk.files, {tmp});
      return FileOperationFailed;
    }
    return Success;
  }

  // ---- The register -------------------------------------------------------

  datatype Request =
    | Set(version: nat)
    | SetAndCrash(version: nat, when: nat)   // the crash falls at step `when` of the call
    | Get(denied: bool, unreadable: bool)
    | Crash

  datatype Event =
    | SetReturned(version: nat, status: Status)
    | SetCrashed(version: nat)
    | GetReturned(result: Result<nat>)
    | Crashed

  ghost predicate Answers(request: Request, event: Event) {
    match request
    case Set(v) => event.SetReturned? && event.version == v
    case SetAndCrash(v, _) => event == SetCrashed(v)
    case Get(denied, unreadable) =>
      && event.GetReturned?
      && (denied ==> event.result == Err(FileOpenFailed))
      && (!denied && !unreadable ==> event.result.Ok?)
      && (!denied && unreadable ==> event.result == Err(FileCorrupt) || event.result == Ok(0))
    case Crash => event == Crashed
  }

  /** One step of an atomic register: a completed set takes effect, a failed one
      does not, a set cut by a crash takes effect entirely or not at all, and a
      read that gets at the file returns the register. */
  ghost predicate RegisterStep(before: nat, event: Event, after: nat) {
    match event
    case SetReturned(v, status) => after == if status == Success then v else before
    case SetCrashed(v) => after == before || after == v
    case GetReturned(result) => after == before && (result.Ok? ==> result.value == before)
    case Crashed => after == before
  }

  predicate Completed(event: Event) {
    event.SetReturned? ==> event.status == Success
  }

  ghost predicate RegisterRun(register: seq<nat>, events: seq<Event>) {
    && |register| == |events| + 1
    && forall i :: 0 <= i < |events| ==> RegisterStep(register[i], events[i], register[i + 1])
  }

  ghost predicate InRange(requests: seq<Request>) {
    forall i :: 0 <= i < |requests| && (requests[i].Set? || requests[i].SetAndCrash?) ==>
      requests[i].version < TWO_32
  }

  /** What the points of one set_version call look like to a later reader. */
  lemma PointsOfSet(history: seq<Files>, from: nat, at: nat, base: Files, root: string,
                    version: nat, i: nat)
    requires VersionOk(base, root) && version < TWO_32
    requires SwitchesAt(history, from, at, base, VersionPath(root), version)
    requires from <= i < |history|
    ensures VersionOk(history[i], root)
    ensures VersionOf(history[i], root) == if i < at then VersionOf(base, root) else version
  {
    Text.PrintThenRead(version);
  }

  /** One request against the real files, seen as one step of the register. */
  method Serve(disk: Disk, root: string, request: Request) returns (event: Event)
    requires disk.Valid() && VersionOk(disk.files, root) && InRange([request])
    modifies disk
    ensures disk.Valid() && VersionOk(disk.files, root)
    ensures Answers(request, event)
    ensures RegisterStep(old(VersionOf(disk.files, root)), event, VersionOf(disk.files, root))
    ensures old(disk.history) <= disk.history
    ensures forall i :: |old(disk.history)| <= i < |disk.history| ==>
      Held(disk.history[i], root, {old(VersionOf(disk.files, root))} + SetBy(request))
    ensures |TmpPath(root)| < MAX_PATH_LEN && disk.AllWorked(|old(disk.history)|) ==> Completed(event)
  {
    ghost var base := disk.files;
    assert [request][0] == request;
    match request
    case Set(v) =>
      var status := Record(disk, root, v);
      event := SetReturned(v, status);
    case SetAndCrash(v, when) =>
      var from := |disk.history|;
      var status := Record(disk, root, v);
      var point := from - 1 + when % (|disk.history| - from + 1);
      ghost var there := disk.history[point];
      assert point == from - 1 ==> there == base;
      disk.Crash(point);
      CrashKeepsVersion(there, disk.files, root);
      event := SetCrashed(v);
    case Get(denied, unreadable) =>
      var result := GetVersion(disk, root, true, denied, unreadable);
      event := GetReturned(result);
    case Crash =>
      disk.Crash(|disk.history| - 1);
      CrashKeepsVersion(base, disk.files, root);
      event := Crashed;
  }

  /** set_version: at each point the old value or the new one is held, at the end
      the one its answer tells. */
  method Record(disk: Disk, root: string, v: nat) returns (status: Status)
    requires disk.Valid() && VersionOk(disk.files, root) && v < TWO_32
    modifies disk
    ensures disk.Valid() && old(disk.history) <= disk.history
    ensures Held(disk.files, root, {if status == Success then v else old(VersionOf(disk.files, root))})
    ensures forall i :: |old(disk.history)| <= i < |disk.history| ==>
      Held(disk.history[i], root, {old(VersionOf(disk.files, root)), v})
    ensures |TmpPath(root)| < MAX_PATH_LEN && disk.AllWorked(|old(disk.history)|) ==> status == Success
  {
    ghost var base, from, at := disk.files, |disk.history|, 0;
    status, at := SetVersion(disk, root, true, v);
    forall i | from <= i < |disk.history|
      ensures VersionOk(disk.history[i], root)
      ensures VersionOf(disk.history[i], root) == if i < at then VersionOf(base, root) else v
    {
      PointsOfSet(disk.history, from, at, base, root, v, i);
    }
  }

  /** Any run of set_version and get_version, with failures and crashes at any
      file step, is a run of an atomic register; only a read that gets nothing out
      of an open file reports corruption.  When no file step fails, every set
      takes effect. */
  method Run(disk: Disk, root: string, requests: seq<Request>)
    returns (events: seq<Event>, register: seq<nat>)
    requires disk.Valid() && VersionOk(disk.files, root) && InRange(requests)
    modifies disk
    ensures disk.Valid() && VersionOk(disk.files, root)
    ensures |events| == |requests|
    ensures forall i :: 0 <= i < |requests| ==> Answers(requests[i], events[i])
    ensures RegisterRun(register, events)
    ensures register[0] == old(VersionOf(disk.files, root))
    ensures register[|events|] == VersionOf(disk.files, root)
    ensures old(disk.history) <= disk.history
    ensures |TmpPath(root)| < MAX_PATH_LEN && disk.AllWorked(|old(disk.history)|) ==>
      forall i :: 0 <= i < |events| ==> Completed(events[i])
  {
    events := [];
    var first := CurrentVersion(disk, root);
    register := [first];
    for n := 0 to |requests|
      invariant disk.Valid() && VersionOk(disk.files, root)
      invariant |events| == n
      invariant forall i :: 0 <= i < n ==> Answers(requests[i], events[i])
      invariant RegisterRun(register, events)
      invariant register[0] == old(VersionOf(disk.files, root))
      invariant register[n] == VersionOf(disk.files, root)
      invariant old(disk.history) <= disk.history
      invariant |TmpPath(root)| < MAX_PATH_LEN && disk.AllWorked(|old(disk.history)|) ==>
        forall i :: 0 <= i < n ==> Completed(events[i])
    {
      var event := Serve(disk, root, requests[n]);
      var now := CurrentVersion(disk, root);
      events, register := events + [event], register + [now];
    }
  }

  method CurrentVersion(disk: Disk, root: string) returns (v: nat)
    requires VersionOk(disk.files, root)
    ensures v == VersionOf(disk.files, root)
  {
    var r := GetVersion(disk, root, true, false, false);
    v := r.value;
  }

  /** What a register run means for a reader: each value returned was there at
      the start, or was written by a set that completed or was in flight at a
      crash, with no completed set after it. */
  lemma {:induction false} ReadSeesLastWrite(register: seq<nat>, events: seq<Event>, n: nat)
    requires RegisterRun(register, events) && n <= |events|
    ensures (register[n] == register[0] && NoneCompleted(events, 0, n)) ||
            exists j :: 0 <= j < n && WrittenAt(events, j, register[n]) && NoneCompleted(events, j + 1, n)
  {
    if n > 0 {
      ReadSeesLastWrite(register, events, n - 1);
      assert RegisterStep(register[n - 1], events[n - 1], register[n]);
      if WrittenAt(events, n - 1, register[n]) {
        assert NoneCompleted(events, n, n);
      } else if register[n - 1] == register[0] && NoneCompleted(events, 0, n - 1) {
        assert NoneCompleted(events, 0, n);
      } else {
        var j :| 0 <= j < n - 1 && WrittenAt(events, j, register[n - 1]) && NoneCompleted(events, j + 1, n - 1);
        assert NoneCompleted(events, j + 1, n);
      }
    }
  }

  ghost predicate WrittenAt(events: seq<Event>, j: int, value: nat)
    requires 0 <= j < |events|
  {
    events[j] == SetReturned(value, Success) || events[j] == SetCrashed(value)
  }

  ghost predicate NoneCompleted(events: seq<Event>, from: int, to: int)
    requires 0 <= from <= to <= |events|
  {
    forall i :: from <= i < to ==> !(events[i].SetReturned? && events[i].status == Success)
  }

  // ---- Without durable directories ------------------------------------------

  /** The version file is readable and holds one of the values. */
  ghost predicate Held(files: Files, root: string, values: set<nat>) {
    VersionOk(files, root) && VersionOf(files, root) in values
  }

  function SetBy(request: Request): set<nat> {
    match request
    case Set(v) => {v}
    case SetAndCrash(v, _) => {v}
    case _ => {}
  }

  ghost predicate AllHeld(history: seq<Files>, root: string, values: set<nat>) {
    forall i :: 0 <= i < |history| ==> Held(history[i], root, values)
  }

  /** Whichever entry of the past the version file goes back to, it is one that
      was written whole. */
  lemma LooseCrashKeepsHeld(history: seq<Files>, at: nat, after: Files, root: string, values: set<nat>)
    requires at < |history| && LooseImage(history, at, after) && AllHeld(history, root, values)
    ensures Held(after, root, values)
  {
    var p := VersionPath(root);
    if p in after {
      var i :| 0 <= i <= at && p in history[i] && (history[i][p].synced ==> after[p] == history[i][p]);
      assert Held(history[i], root, values);
    } else {
      var i :| 0 <= i <= at && (p in history[i] ==> !history[i][p].synced);
      assert Held(history[i], root, values);
    }
  }

  /** A request, or a loss of power that may undo directory operations back to any
      state the disk has been in. */
  datatype Trial = Ask(request: Request) | LosePower(when: nat)

  function AllSet(trials: seq<Trial>): set<nat> {
    if trials == [] then {}
    else
      var last := trials[|trials| - 1];
      AllSet(trials[..|trials| - 1]) + TrialSets(last)
  }

  /** Even then a read that gets at the file never reports corruption, and returns
      a value the disk held before or some set wrote. */
  method RunWithPowerLoss(disk: Disk, root: string, trials: seq<Trial>, ghost before: set<nat>)
    returns (events: seq<Event>)
    requires disk.Valid() && AllHeld(disk.history, root, before)
    requires forall i :: 0 <= i < |trials| && trials[i].Ask? ==> InRange([trials[i].request])
    modifies disk
    ensures disk.Valid() && AllHeld(disk.history, root, before + AllSet(trials))
    ensures |events| == |trials|
    ensures forall i :: 0 <= i < |trials| && trials[i].Ask? ==> Answers(trials[i].request, events[i])
    ensures forall i :: 0 <= i < |trials| && events[i].GetReturned? && events[i].result.Ok? ==>
      events[i].result.value in before + AllSet(trials[..i])
  {
    events := [];
    var n := 0;
    assert before + AllSet(trials[..0]) == before;
    hide AllHeld, AllSet, Answers, InRange;
    while n < |trials|
      invariant n <= |trials| && |events| == n && disk.Valid()
      invariant AllHeld(disk.history, root, before + AllSet(trials[..n]))
      invariant forall i :: 0 <= i < n && trials[i].Ask? ==> Answers(trials[i].request, events[i])
      invariant forall i :: 0 <= i < n && events[i].GetReturned? && events[i].result.Ok? ==>
        events[i].result.value in before + AllSet(trials[..i])
    {
      var event := Undergo(disk, root, trials[n], before + AllSet(trials[..n]));
      OneMoreTrial(trials, n);
      assert before + AllSet(trials[..n + 1]) == before + AllSet(trials[..n]) + TrialSets(trials[n]);
      events := events + [event];
      n := n + 1;
    }
    assert trials[..n] == trials;
  }

  function TrialSets(trial: Trial): set<nat> {
    if trial.Ask? then SetBy(trial.request) else {}
  }

  lemma OneMoreTrial(trials: seq<Trial>, n: nat)
    requires n < |trials|
    ensures AllSet(trials[..n + 1]) == AllSet(trials[..n]) + TrialSets(trials[n])
  {
    assert trials[..n + 1][..n] == trials[..n];
  }

  method Undergo(disk: Disk, root: string, trial: Trial, ghost values: set<nat>) returns (event: Event)
    requires disk.Valid() && AllHeld(disk.history, root, values)
    requires trial.Ask? ==> InRange([trial.request])
    modifies disk
    ensures disk.Valid() && AllHeld(disk.history, root, values + TrialSets(trial))
    ensures trial.Ask? ==> Answers(trial.request, event)
    ensures event.GetReturned? && event.result.Ok? ==> event.result.value in values
  {
    ghost var h := disk.history;
    hide VersionOk, VersionOf, LooseImage;
    assert Held(h[|h| - 1], root, values);
    match trial
    case Ask(request) =>
      event := Serve(disk, root, request);
      MoreHeld(h, disk.history, root, values, VersionOf(h[|h| - 1], root), SetBy(request));
    case LosePower(when) =>
      var at := when % |disk.history|;
      disk.PowerLoss(at);
      LooseCrashKeepsHeld(h, at, disk.files, root, values);
      event := Crashed;
  }

  lemma MoreHeld(h: seq<Files>, history: seq<Files>, root: string, values: set<nat>, v: nat, more: set<nat>)
    requires h <= history && AllHeld(h, root, values) && v in values
    requires forall i :: |h| <= i < |history| ==> Held(history[i], root, {v} + more)
    ensures AllHeld(history, root, values + more)
  {
  }
}
