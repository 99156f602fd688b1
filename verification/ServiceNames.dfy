/** Cleaning of service names, and the bounded table of service log files that
    is keyed by the cleaned name. */
module ServiceNames {
  import opened Status

  const MAX_SERVICE_LEN: nat := 64
  const MAX_SERVICES: nat := 32

  // ---- Names -----------------------------------------------------------------

  /** isalnum in the C locale, '_', '-' or '.'. */
  predicate Plain(c: char) {
    'a' <= c <= 'z' || 'A' <= c <= 'Z' || '0' <= c <= '9' || c == '_' || c == '-' || c == '.'
  }

  predicate DotsAt(s: string, i: nat) {
    i + 1 < |s| && s[i] == '.' && s[i + 1] == '.'
  }

  /** strstr(s, ".."), strchr(s, '/'), strchr(s, '\\') */
  predicate Hostile(s: string) {
    (exists i :: 0 <= i < |s| && DotsAt(s, i)) || '/' in s || '\\' in s
  }

  /** heapstore_ident_safe, for a string without NUL. */
  method IdentSafe(input: string) returns (safe: bool)
    ensures safe <==> Safe(input)
    ensures safe <==> input != "" && (forall k :: 0 <= k < |input| ==> IsWord(input[k])) && NoPairOfDots(input)
  {
    PairOfDots(input);
    if input == "" || Hostile(input) {
      return false;
    }
    var i := 0;
    while i < |input|
      invariant i <= |input|
      invariant forall k :: 0 <= k < i ==> Plain(input[k])
    {
      if !Plain(input[i]) {
        return false;
      }
      i := i + 1;
    }
    return true;
  }

  /** What counts as part of a name, written out on its own. */
  ghost predicate IsWord(c: char) {
    c in "_-." || '0' <= c <= '9' || 'A' <= c <= 'Z' || 'a' <= c <= 'z'
  }

  ghost predicate NoPairOfDots(s: string) {
    forall k :: 0 < k < |s| ==> s[k] != '.' || s[k - 1] != '.'
  }

  lemma PairOfDots(s: string)
    ensures (exists i :: 0 <= i < |s| && DotsAt(s, i)) <==> !NoPairOfDots(s)
  {
    if k :| 0 < k < |s| && s[k] == '.' && s[k - 1] == '.' {
      assert DotsAt(s, k - 1);
    }
  }

  predicate Safe(s: string) {
    s != "" && !Hostile(s) && forall k :: 0 <= k < |s| ==> Plain(s[k])
  }

  function CleanChar(c: char): char {
    if Plain(c) then c else '_'
  }

  function Cleaned(s: string): string {
    seq(|s|, i requires 0 <= i < |s| => CleanChar(s[i]))
  }

  predicate Accepts(input: string, size: nat) {
    0 < |input| < size && !Hostile(input)
  }

  /** heapstore_path_clean: fills the buffer, with the closing NUL, when it
      accepts the name, and does not touch it otherwise. */
  method PathClean(output: array<char>, input: string) returns (ok: bool)
    modifies output
    ensures ok <==> Accepts(input, output.Length)
    ensures ok <==> 0 < |input| < output.Length && '/' !in input && '\\' !in input && NoPairOfDots(input)
    ensures ok ==> forall k :: 0 <= k < |input| ==> output[k] == if IsWord(input[k]) then input[k] else '_'
    ensures ok ==> output[..|input|] == Cleaned(input) && output[|input|] == '\0'
    ensures ok ==> output[|input| + 1..] == old(output[|input| + 1..])
    ensures !ok ==> output[..] == old(output[..])
  {
    PairOfDots(input);
    if |input| == 0 || |input| >= output.Length || Hostile(input) {
      return false;
    }
    ghost var was := output[..];
    var i := 0;
    while i < |input|
      invariant i <= |input|
      invariant forall k :: 0 <= k < i ==> output[k] == CleanChar(input[k])
      invariant forall k :: i <= k < output.Length ==> output[k] == was[k]
    {
      output[i] := CleanChar(input[i]);
      i := i + 1;
    }
    output[|input|] := '\0';
    assert output[..|input|] == Cleaned(input);
    assert output[|input| + 1..] == was[|input| + 1..];
    return true;
  }

  /** A cleaned name is safe, whatever was accepted. */
  lemma CleanedIsSafe(s: string, size: nat)
    requires Accepts(s, size)
    ensures Safe(Cleaned(s)) && Accepts(Cleaned(s), size)
  {
    var c := Cleaned(s);
    if i :| 0 <= i < |c| && DotsAt(c, i) {
      assert DotsAt(s, i);
    }
  }

  /** The names that need no cleaning are exactly the safe ones. */
  lemma SafeIffUnchanged(s: string, size: nat)
    requires |s| < size
    ensures Safe(s) <==> Accepts(s, size) && Cleaned(s) == s
  {
  }

  /** Cleaning twice is cleaning once. */
  lemma CleanTwice(s: string, size: nat)
    requires Accepts(s, size)
    ensures Cleaned(Cleaned(s)) == Cleaned(s)
  {
  }

  /** Two names share a file exactly when they differ only where both have '_' or
      a character that is not allowed. */
  lemma Collide(a: string, b: string)
    ensures Cleaned(a) == Cleaned(b) <==>
      |a| == |b| && forall k :: 0 <= k < |a| ==>
        a[k] == b[k] || ((!Plain(a[k]) || a[k] == '_') && (!Plain(b[k]) || b[k] == '_'))
  {
    if Cleaned(a) == Cleaned(b) {
      assert |Cleaned(a)| == |Cleaned(b)|;
      forall k | 0 <= k < |a|
        ensures CleanChar(a[k]) == CleanChar(b[k])
      {
        assert Cleaned(a)[k] == Cleaned(b)[k];
      }
    }
  }

  // ---- The table --------------------------------------------------------------

  /** An open stream, told apart by the order of the opens. */
  datatype Stream = Stream(opening: nat, path: string)

  datatype ServiceLog = ServiceLog(name: string, file: Stream)

  function ServicePath(base: string, name: string): string {
    base + "/services/" + name + ".log"
  }

  function MainPath(base: string): string {
    base + "/kernel/agentrt.log"
  }

  /** The stream of a name, if it has one. */
  function Lookup(services: seq<ServiceLog>, name: string): (r: Option<Stream>)
    ensures r.Some? <==> exists i :: 0 <= i < |services| && services[i].name == name
  {
    if services == [] then None
    else if services[0].name == name then Some(services[0].file)
    else
      assert forall i :: 0 < i < |services| ==> services[i] == services[1..][i - 1];
      Lookup(services[1..], name)
  }

  lemma {:induction false} LookupAppend(services: seq<ServiceLog>, entry: ServiceLog, name: string)
    ensures Lookup(services + [entry], name) ==
      if Lookup(services, name).Some? then Lookup(services, name)
      else if entry.name == name then Some(entry.file) else None
  {
    if services != [] {
      assert (services + [entry])[1..] == services[1..] + [entry];
      LookupAppend(services[1..], entry, name);
    } else {
      assert services + [entry] == [entry];
    }
  }

  class LogFiles {
    const base: string
    const works: nat -> bool       // whether the nth fopen goes well
    var initialized: bool
    var mainLog: Option<Stream>
    var services: seq<ServiceLog>
    var opens: nat

    ghost predicate Valid()
      reads this
    {
      && |services| <= MAX_SERVICES
      && (mainLog.Some? ==> mainLog.value.path == MainPath(base))
      && (forall i :: 0 <= i < |services| ==>
            && Safe(services[i].name) && |services[i].name| < MAX_SERVICE_LEN
            && services[i].file.path == ServicePath(base, services[i].name)
            && services[i].file.opening < opens)
      && (forall i, j :: 0 <= i < j < |services| ==>
            services[i].name != services[j].name && services[i].file.opening != services[j].file.opening)
    }

    /** One of the opens since then failed. */
    ghost predicate Failed(since: nat)
      reads this
    {
      exists i :: since <= i < opens && !works(i)
    }

    constructor (base: string, works: nat -> bool)
      ensures Valid() && initialized && services == []
    {
      this.base, this.works := base, works;
      initialized, mainLog, services, opens := true, None, [], 0;
    }

    /** fopen(path, "a") */
    method Open(path: string) returns (r: Option<Stream>)
      modifies this`opens
      ensures opens == old(opens) + 1
      ensures r == if works(old(opens)) then Some(Stream(old(opens), path)) else None
      ensures r.None? ==> Failed(old(opens))
    {
      opens := opens + 1;
      assert !works(opens - 1) ==> Failed(opens - 1);
      return if works(opens - 1) then Some(Stream(opens - 1, path)) else None;
    }

    method MainLogFile() returns (r: Option<Stream>)
      requires Valid()
      modifies this`mainLog, this`opens
      ensures Valid() && opens >= old(opens)
      ensures !initialized ==> r == None && mainLog == old(mainLog)
      ensures initialized ==> r == mainLog
      ensures initialized && old(mainLog).Some? ==> mainLog == old(mainLog)
      ensures initialized && r.None? ==> Failed(old(opens))
    {
      if !initialized {
        return None;
      }
      if mainLog.None? {
        mainLog := Open(MainPath(base));
      }
      return mainLog;
    }

    /** get_service_log_file: a name gets the one file of its cleaned form; when
        the table is full a new name writes to the main log. */
    method ServiceLogFile(service: string) returns (r: Option<Stream>)
      requires Valid()
      modifies this
      ensures Valid() && initialized == old(initialized) && old(services) <= services
      ensures old(mainLog).Some? && initialized ==> mainLog == old(mainLog)
      ensures Served(initialized, old(services), service, r, services, mainLog)
      ensures opens >= old(opens)
      ensures r.None? && Servable(initialized, service) ==> Failed(old(opens))
    {
      if service == "" {
        r := MainLogFile();
        return;
      }
      var buffer := new char[MAX_SERVICE_LEN];
      var ok := PathClean(buffer, service);
      if !ok {
        return None;
      }
      var name := Cleaned(service);
      CleanedIsSafe(service, MAX_SERVICE_LEN);
      assert buffer[..|service|] == name;
      r := NamedFile(name);
    }

    /** The part under the lock: the table by cleaned name. */
    method NamedFile(name: string) returns (r: Option<Stream>)
      requires Valid() && Safe(name) && |name| < MAX_SERVICE_LEN
      modifies this
      ensures Valid() && initialized == old(initialized) && old(services) <= services
      ensures old(mainLog).Some? && initialized ==> mainLog == old(mainLog)
      ensures var before := Lookup(old(services), name);
        if before.Some? then services == old(services) && r == before
        else if |old(services)| == MAX_SERVICES then
          services == old(services) && r == (if initialized then mainLog else None)
        else if r.None? then services == old(services)
        else services == old(services) + [ServiceLog(name, r.value)]
      ensures opens >= old(opens)
      ensures r.None? && initialized ==> Failed(old(opens))
    {
      r := Find(name);
      if r.Some? {
        return;
      }
      if |services| == MAX_SERVICES {
        r := MainLogFile();
        return;
      }
      r := Open(ServicePath(base, name));
      if r.Some? {
        services := services + [ServiceLog(name, r.value)];
      }
    }

    /** The search loop over the table. */
    method Find(name: string) returns (r: Option<Stream>)
      ensures r == Lookup(services, name)
    {
      var i := 0;
      while i < |services|
        invariant i <= |services| && Lookup(services, name) == Lookup(services[i..], name)
      {
        if services[i].name == name {
          return Some(services[i].file);
        }
        assert services[i..][1..] == services[i + 1..];
        i := i + 1;
      }
      return None;
    }

    /** Over a whole run of requests: each is served from the table as it then is,
        and once a name has got a stream, every later name with the same cleaned
        form gets that very stream.  `tables` and `mains` are what the table and the
        main log go through. */
    method Run(requests: seq<string>)
      returns (answers: seq<Option<Stream>>, ghost tables: seq<seq<ServiceLog>>, ghost mains: seq<Option<Stream>>)
      requires Valid()
      modifies this
      ensures Valid() && |answers| == |requests|
      ensures |tables| == |requests| + 1 && tables[0] == old(services) && tables[|requests|] == services
      ensures |mains| == |requests| && forall i :: 0 <= i < |requests| ==>
        Served(initialized, tables[i], requests[i], answers[i], tables[i + 1], mains[i])
      ensures (exists i :: 0 <= i < |requests| && Refused(initialized, requests[i], answers[i])) ==> Failed(old(opens))
      ensures forall i, j :: 0 <= i < j < |requests| ==> Agree(requests[i], answers[i], requests[j], answers[j])
      ensures forall i :: 0 <= i < |requests| ==> Keeps(initialized, requests[i], answers[i], services, mainLog)
    {
      answers, tables, mains := [], [services], [];
      hide Served, Keeps, Agree, Refused;
      var i := 0;
      while i < |requests|
        invariant i <= |requests| && Valid() && |answers| == i && |tables| == i + 1
        invariant tables[0] == old(services) && tables[i] == services && initialized == old(initialized)
        invariant |mains| == i && forall k :: 0 <= k < i ==>
          Served(initialized, tables[k], requests[k], answers[k], tables[k + 1], mains[k])
        invariant opens >= old(opens)
        invariant (exists k :: 0 <= k < i && Refused(initialized, requests[k], answers[k])) ==> Failed(old(opens))
        invariant forall k, l :: 0 <= k < l < i ==> Agree(requests[k], answers[k], requests[l], answers[l])
        invariant forall k :: 0 <= k < i ==> Keeps(initialized, requests[k], answers[k], services, mainLog)
      {
        ghost var before, mainBefore := services, mainLog;
        var r := ServiceLogFile(requests[i]);
        RefusedIs(initialized, requests[i], r);
        ServedOnce(initialized, before, requests[i], r, services, mainLog);
        forall k | 0 <= k < i
          ensures Keeps(initialized, requests[k], answers[k], services, mainLog)
          ensures Agree(requests[k], answers[k], requests[i], r)
        {
          ServedAgain(initialized, before, mainBefore, requests[i], r, services, mainLog, requests[k], answers[k]);
        }
        answers, tables, mains := answers + [r], tables + [services], mains + [mainLog];
        i := i + 1;
      }
    }
  }

  /** What one request does: the main log for no name and for a new one in a full
      table, nothing for a name that is not accepted, the stream of a known name,
      and for a new one a stream of its own if its file opens. */
  ghost predicate Served(ready: bool, before: seq<ServiceLog>, service: string, answer: Option<Stream>,
                         after: seq<ServiceLog>, mainLog: Option<Stream>)
  {
    var known := Lookup(before, Cleaned(service));
    if service == "" then after == before && answer == (if ready then mainLog else None)
    else if !Accepts(service, MAX_SERVICE_LEN) then after == before && answer == None
    else if known.Some? then after == before && answer == known
    else if |before| == MAX_SERVICES then after == before && answer == (if ready then mainLog else None)
    else if answer.None? then after == before
    else after == before + [ServiceLog(Cleaned(service), answer.value)]
  }

  /** A stream handed out is the one the table keeps for the name, or the main log. */
  ghost predicate Keeps(ready: bool, service: string, answer: Option<Stream>, services: seq<ServiceLog>,
                        mainLog: Option<Stream>)
  {
    answer.Some? ==>
      if service == "" then ready && answer == mainLog
      else
        && Accepts(service, MAX_SERVICE_LEN)
        && (Lookup(services, Cleaned(service)) == answer ||
            (Lookup(services, Cleaned(service)).None? && |services| == MAX_SERVICES && ready && answer == mainLog))
  }

  /** Two requests for the same cleaned name, the first of them answered with a
      stream, get the same stream. */
  ghost predicate Agree(a: string, first: Option<Stream>, b: string, second: Option<Stream>) {
    first.Some? && Cleaned(a) == Cleaned(b) && (b == "" || Accepts(b, MAX_SERVICE_LEN)) ==> second == first
  }

  /** The log is up and the name is empty or accepted. */
  predicate Servable(ready: bool, service: string) {
    ready && (service == "" || Accepts(service, MAX_SERVICE_LEN))
  }

  ghost predicate Refused(ready: bool, service: string, answer: Option<Stream>) {
    answer.None? && Servable(ready, service)
  }

  lemma RefusedIs(ready: bool, service: string, answer: Option<Stream>)
    ensures Refused(ready, service, answer) <==> answer.None? && Servable(ready, service)
  {
  }

  lemma ServedOnce(ready: bool, before: seq<ServiceLog>, service: string, answer: Option<Stream>,
                   after: seq<ServiceLog>, mainLog: Option<Stream>)
    requires Served(ready, before, service, answer, after, mainLog)
    ensures Keeps(ready, service, answer, after, mainLog)
  {
    if |after| > |before| {
      LookupAppend(before, after[|before|], Cleaned(service));
    }
  }

  lemma ServedAgain(ready: bool, before: seq<ServiceLog>, mainBefore: Option<Stream>, service: string,
                    answer: Option<Stream>, after: seq<ServiceLog>, mainLog: Option<Stream>,
                    earlier: string, first: Option<Stream>)
    requires Served(ready, before, service, answer, after, mainLog)
    requires mainBefore.Some? && ready ==> mainLog == mainBefore
    requires Keeps(ready, earlier, first, before, mainBefore)
    ensures Keeps(ready, earlier, first, after, mainLog) && Agree(earlier, first, service, answer)
  {
    if |after| > |before| {
      LookupAppend(before, after[|before|], Cleaned(earlier));
    }
  }

  lemma {:induction false} LookupFinds(services: seq<ServiceLog>, name: string) returns (i: nat)
    requires Lookup(services, name).Some?
    ensures i < |services| && services[i] == ServiceLog(name, Lookup(services, name).value)
  {
    if services[0].name == name {
      i := 0;
    } else {
      var k := LookupFinds(services[1..], name);
      i := k + 1;
    }
  }

  /** Different names have different files, none of them the main log, and each
      lies directly in the services directory. */
  lemma FilesApart(base: string, a: string, b: string)
    requires Safe(a)
    ensures ServicePath(base, a) == ServicePath(base, b) <==> a == b
    ensures ServicePath(base, a) != MainPath(base)
    ensures '/' !in a && base + "/services/" <= ServicePath(base, a)
  {
    var start := |base + "/services/"|;
    assert ServicePath(base, a)[start..|ServicePath(base, a)| - 4] == a;
    assert ServicePath(base, b)[start..|ServicePath(base, b)| - 4] == b;
    assert ServicePath(base, a)[|base| + 1] == 's' && MainPath(base)[|base| + 1] == 'k';
  }

  /** Two names in the table share a stream exactly when they are the same, and
      each stream is the file of its name. */
  lemma OneStreamEach(files: LogFiles, a: string, b: string)
    requires files.Valid() && Lookup(files.services, a).Some? && Lookup(files.services, b).Some?
    ensures Lookup(files.services, a) == Lookup(files.services, b) <==> a == b
    ensures Lookup(files.services, a).value.path == ServicePath(files.base, a)
  {
    var i := LookupFinds(files.services, a);
    var j := LookupFinds(files.services, b);
  }
}
