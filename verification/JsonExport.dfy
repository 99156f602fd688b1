/** heapstore_trace_export_to_json: records printed with snprintf into a buffer
    that is estimated from the number of spans and doubled on the way. */
module JsonExport {
  import opened Widths
  import opened SpanBuffer
  import Text = VersionText

  // ---- The text -----------------------------------------------------------

  /** A quote or a backslash gets a backslash in front. */
  ghost function Escape(name: string): string {
    if name == [] then []
    else
      var n := |name| - 1;
      Escape(name[..n]) + EscapeChar(name[n])
  }

  function EscapeChar(c: char): string {
    if c == '\"' || c == '\\' then ['\\', c] else [c]
  }

  function Line(field: string, value: string): string {
    "    \"" + field + "\": \"" + value + "\",\n"
  }

  function Number(field: string, value: nat): string {
    "    \"" + field + "\": " + Text.Digits(value)
  }

  function Names(s: SpanInfo, escaped: string): string {
    "  {\n" + Line("traceId", s.traceId) + Line("spanId", s.spanId) +
    Line("parentSpanId", s.parentSpanId) + Line("name", escaped)
  }

  function Values(s: SpanInfo, includeEvents: bool): string {
    Number("startTimeNs", s.startNs) + ",\n" + Number("endTimeNs", s.endNs) + ",\n" +
    Line("status", s.status) + Number("attributeCount", s.attributeCount) +
    (if includeEvents then ",\n    \"events\": []" else "")
  }

  /** The object printed for one span, without the comma that may follow it. */
  function Object(s: SpanInfo, escaped: string, includeEvents: bool): string {
    Names(s, escaped) + Values(s, includeEvents) + "\n  }"
  }

  ghost function Objects(spans: seq<SpanInfo>, includeEvents: bool): (objects: seq<string>)
    ensures |objects| == |spans|
    ensures forall i :: 0 <= i < |spans| ==> objects[i] == Object(spans[i], Escape(spans[i].name), includeEvents)
  {
    seq(|spans|, i requires 0 <= i < |spans| => Object(spans[i], Escape(spans[i].name), includeEvents))
  }

  /** What is printed for one object: a comma after all but the last. */
  ghost function Record(objects: seq<string>, i: nat): string
    requires i < |objects|
  {
    objects[i] + (if i < |objects| - 1 then "," else "") + "\n"
  }

  ghost function Records(objects: seq<string>, n: nat): string
    requires n <= |objects|
  {
    if n == 0 then "" else Records(objects, n - 1) + Record(objects, n - 1)
  }

  ghost function Join(objects: seq<string>, separator: string): string {
    if objects == [] then ""
    else if |objects| == 1 then objects[0]
    else
      var n := |objects| - 1;
      Join(objects[..n], separator) + separator + objects[n]
  }

  /** The array of the objects. */
  ghost function ArrayOf(objects: seq<string>): string {
    if objects == [] then "[]" else "[\n" + Join(objects, ",\n") + "\n]"
  }

  lemma {:induction false} RecordsAreJoined(objects: seq<string>, n: nat)
    requires 0 < n <= |objects|
    ensures Records(objects, n) == Join(objects[..n], ",\n") + (if n < |objects| then ",\n" else "\n")
  {
    if n > 1 {
      RecordsAreJoined(objects, n - 1);
      assert objects[..n][..n - 1] == objects[..n - 1];
      assert Join(objects[..n], ",\n") == Join(objects[..n - 1], ",\n") + ",\n" + objects[n - 1];
    } else {
      assert Records(objects, 0) == "";
    }
  }

  // ---- The struct ---------------------------------------------------------

  ghost predicate NoNul(s: string) {
    forall i :: 0 <= i < |s| ==> s[i] != '\0'
  }

  ghost predicate CStringIn(s: string, size: nat) {
    |s| < size && NoNul(s)
  }

  /** The fields are C strings in their arrays and 64-bit numbers. */
  ghost predicate FitsStruct(s: SpanInfo) {
    && CStringIn(s.traceId, 64) && CStringIn(s.spanId, 32) && CStringIn(s.parentSpanId, 32)
    && CStringIn(s.name, 128) && CStringIn(s.status, 32)
    && s.startNs < TWO_64 && s.endNs < TWO_64 && s.attributeCount < TWO_64
  }

  lemma {:induction false} EscapeBounds(name: string)
    ensures |name| <= |Escape(name)| <= 2 * |name|
    ensures NoNul(name) ==> NoNul(Escape(name))
  {
    if name != [] {
      EscapeBounds(name[..|name| - 1]);
    }
  }

  lemma ObjectHasNoNul(s: SpanInfo, includeEvents: bool)
    requires FitsStruct(s)
    ensures NoNul(Object(s, Escape(s.name), includeEvents))
  {
    EscapeBounds(s.name);
    NamesHaveNoNul(s, Escape(s.name));
    ValuesHaveNoNul(s, includeEvents);
  }

  lemma NamesHaveNoNul(s: SpanInfo, escaped: string)
    requires NoNul(s.traceId) && NoNul(s.spanId) && NoNul(s.parentSpanId) && NoNul(escaped)
    ensures NoNul(Names(s, escaped))
  {
    LineHasNoNul("traceId", s.traceId);
    LineHasNoNul("spanId", s.spanId);
    LineHasNoNul("parentSpanId", s.parentSpanId);
    LineHasNoNul("name", escaped);
    FourParts(Line("traceId", s.traceId), Line("spanId", s.spanId), Line("parentSpanId", s.parentSpanId),
              Line("name", escaped));
  }

  lemma ValuesHaveNoNul(s: SpanInfo, includeEvents: bool)
    requires NoNul(s.status)
    ensures NoNul(Values(s, includeEvents))
  {
    NumberHasNoNul("startTimeNs", s.startNs);
    NumberHasNoNul("endTimeNs", s.endNs);
    NumberHasNoNul("attributeCount", s.attributeCount);
    LineHasNoNul("status", s.status);
    var start, end := Number("startTimeNs", s.startNs) + ",\n", Number("endTimeNs", s.endNs) + ",\n";
    FourParts(start, end, Line("status", s.status), Number("attributeCount", s.attributeCount));
    assert start + end == Number("startTimeNs", s.startNs) + ",\n" + Number("endTimeNs", s.endNs) + ",\n";
  }

  lemma FourParts(a: string, b: string, c: string, d: string)
    requires NoNul(a) && NoNul(b) && NoNul(c) && NoNul(d)
    ensures NoNul(a + b + c + d) && NoNul("  {\n" + a + b + c + d)
  {
  }

  lemma LineHasNoNul(field: string, value: string)
    requires NoNul(field) && NoNul(value)
    ensures NoNul(Line(field, value))
  {
  }

  lemma NumberHasNoNul(field: string, value: nat)
    requires NoNul(field)
    ensures NoNul(Number(field, value))
  {
  }

  // ---- The code -----------------------------------------------------------

  /** The loop that fills escaped_name[256]; its index stays below 255. */
  method EscapeName(name: string) returns (escaped: string)
    requires |name| < 128
    ensures escaped == Escape(name) && |escaped| <= 254
  {
    escaped := "";
    var j := 0;
    while j < |name| && j < 127 && |escaped| < 255
      invariant j <= |name| && |escaped| <= 2 * j
      invariant escaped == Escape(name[..j])
    {
      assert name[..j + 1][..j] == name[..j];
      if name[j] == '\"' || name[j] == '\\' {
        escaped := escaped + ['\\'];
      }
      escaped := escaped + [name[j]];
      j := j + 1;
    }
    assert name[..j] == name;
  }

  /** snprintf(buffer + pos, size, "%s", text): stores what fits and a NUL, returns
      the length it wanted. */
  method Snprintf(buffer: array<char>, pos: nat, size: nat, text: string) returns (n: nat)
    requires pos + size <= buffer.Length
    modifies buffer
    ensures n == |text|
    ensures buffer[..pos] == old(buffer[..pos])
    ensures |text| < size ==> buffer[..pos + |text|] == old(buffer[..pos]) + text && buffer[pos + |text|] == '\0'
    ensures 0 < size <= |text| ==> buffer[pos + size - 1] == '\0'
  {
    if size > 0 {
      var stored := if |text| < size then |text| else size - 1;
      forall i | pos <= i < pos + stored {
        buffer[i] := text[i - pos];
      }
      buffer[pos + stored] := '\0';
    }
    n := |text|;
  }

  /** realloc to a larger size; NULL when it fails. */
  method Realloc(buffer: array<char>, size: nat, memory: bool) returns (larger: array?<char>)
    requires size >= buffer.Length
    ensures larger != null <==> memory
    ensures larger != null ==> fresh(larger) && larger.Length == size
    ensures larger != null ==> larger[..buffer.Length] == buffer[..]
  {
    if !memory {
      return null;
    }
    var copy := new char[size];
    forall i | 0 <= i < buffer.Length {
      copy[i] := buffer[i];
    }
    return copy;
  }

  datatype Exported = Json(bytes: seq<char>) | NoMemory

  ghost predicate HoldsCString(bytes: seq<char>, text: string) {
    |text| < |bytes| && bytes[..|text|] == text && bytes[|text|] == '\0'
  }

  function Estimate(spans: nat, includeEvents: bool): nat {
    spans * 512 + 64 + (if includeEvents then spans * 256 else 0)
  }

  /** The array up to the first n records. */
  ghost function TextAt(objects: seq<string>, n: nat): string
    requires n <= |objects|
  {
    "[\n" + Records(objects, n)
  }

  /** pos after n rounds of the loop. */
  ghost function PosAt(objects: seq<string>, n: nat): nat
    requires n <= |objects|
  {
    |TextAt(objects, n)|
  }

  lemma NextPos(objects: seq<string>, n: nat)
    requires n < |objects|
    ensures TextAt(objects, n + 1) == TextAt(objects, n) + Record(objects, n)
    ensures PosAt(objects, n + 1) == PosAt(objects, n) + |Record(objects, n)|
  {
  }

  /** estimated_size after n rounds: doubled when fewer than 512 bytes are left. */
  ghost function SizeAt(objects: seq<string>, includeEvents: bool, n: nat): (size: nat)
    requires n <= |objects|
    ensures size >= Estimate(|objects|, includeEvents)
  {
    if n == 0 then Estimate(|objects|, includeEvents)
    else
      var before := SizeAt(objects, includeEvents, n - 1);
      if PosAt(objects, n) + 512 >= before then 2 * before else before
  }

  /** The first n records each end below the end of the block they are printed into. */
  ghost predicate FirstFit(objects: seq<string>, includeEvents: bool, n: nat)
    requires n <= |objects|
  {
    forall i :: 0 <= i < n ==> PosAt(objects, i + 1) < SizeAt(objects, includeEvents, i)
  }

  ghost predicate AllFit(objects: seq<string>, includeEvents: bool) {
    FirstFit(objects, includeEvents, |objects|)
  }

  /** A NUL below pos, where no later print comes. */
  ghost predicate WasCut(bytes: seq<char>, pos: nat) {
    exists c :: 0 <= c < pos && c < |bytes| && bytes[c] == '\0'
  }

  /** The state after n rounds: the text is whole while every record fitted, and
      cut for good once one did not. */
  ghost predicate Going(bytes: seq<char>, objects: seq<string>, includeEvents: bool, n: nat) {
    && n <= |objects| && |bytes| == SizeAt(objects, includeEvents, n)
    && (if FirstFit(objects, includeEvents, n) then HoldsCString(bytes, TextAt(objects, n))
        else WasCut(bytes, PosAt(objects, n)))
  }

  /** The exporter always ends in one block of memory, and the block holds the
      array exactly when each record fitted the block of its round. */
  method ExportToJson(spans: seq<SpanInfo>, includeEvents: bool, memory: nat -> bool) returns (r: Exported)
    requires forall i :: 0 <= i < |spans| ==> FitsStruct(spans[i])
    ensures var objects := Objects(spans, includeEvents);
      r.Json? ==> (HoldsCString(r.bytes, ArrayOf(objects)) <==> AllFit(objects, includeEvents))
    ensures r.NoMemory? ==> exists i :: 0 <= i <= |spans| && !memory(i)
  {
    hide Object;
    if spans == [] {
      if !memory(0) {
        return NoMemory;
      }
      var text := ['[', ']', '\0'];
      assert ArrayOf(Objects(spans, includeEvents)) == "[]" == text[..2];
      assert HoldsCString(text, "[]");
      return Json(text);
    }
    r := ExportSpans(spans, includeEvents, memory);
  }

  method ExportSpans(spans: seq<SpanInfo>, includeEvents: bool, memory: nat -> bool) returns (r: Exported)
    requires spans != [] && forall i :: 0 <= i < |spans| ==> FitsStruct(spans[i])
    ensures var objects := Objects(spans, includeEvents);
      r.Json? ==> (HoldsCString(r.bytes, ArrayOf(objects)) <==> AllFit(objects, includeEvents))
    ensures r.NoMemory? ==> exists i :: 0 <= i <= |spans| && !memory(i)
  {
    hide Object, SizeAt, AllFit, HoldsCString, ArrayOf;
    ghost var objects := Objects(spans, includeEvents);
    LegalSpansArePrintable(spans, includeEvents);
    var buffer, pos := PrintRecords(spans, includeEvents, memory);
    if buffer == null {
      return NoMemory;
    }
    ghost var was := buffer[..];
    NoOverrun(objects, includeEvents, |objects|);
    var _ := Snprintf(buffer, pos, buffer.Length - pos, "]");
    r := Json(buffer[..]);
    assert r.bytes[..pos] == was[..pos];
    Closing(was, r.bytes, objects, includeEvents);
  }

  /** The allocation, the opening bracket and the loop over the spans; no buffer
      when memory runs out.  The size that is left never goes below zero. */
  method PrintRecords(spans: seq<SpanInfo>, includeEvents: bool, memory: nat -> bool)
    returns (buffer: array?<char>, pos: nat)
    requires spans != [] && forall i :: 0 <= i < |spans| ==> |spans[i].name| < 128
    requires Printable(Objects(spans, includeEvents))
    ensures buffer == null ==> exists i :: 0 <= i <= |spans| && !memory(i)
    ensures buffer != null ==> fresh(buffer)
    ensures buffer != null ==>
      pos == PosAt(Objects(spans, includeEvents), |spans|) &&
      Going(buffer[..], Objects(spans, includeEvents), includeEvents, |spans|)
  {
    hide Object, Going, SizeAt;
    ghost var objects := Objects(spans, includeEvents);
    buffer, pos := OpenArray(|spans|, includeEvents, objects, memory(0));
    if buffer == null {
      return;
    }
    for i := 0 to |spans|
      invariant buffer != null && fresh(buffer)
      invariant pos == PosAt(objects, i) && Going(buffer[..], objects, includeEvents, i)
    {
      var escaped := EscapeName(spans[i].name);
      var record := Object(spans[i], escaped, includeEvents) + (if i < |spans| - 1 then "," else "") + "\n";
      assert record == Record(objects, i);
      buffer, pos := AppendRecord(buffer, pos, record, objects, i, includeEvents, memory(i + 1));
      if buffer == null {
        return;
      }
    }
  }

  method OpenArray(spans: nat, includeEvents: bool, ghost objects: seq<string>, memory: bool)
    returns (buffer: array?<char>, pos: nat)
    requires 0 < spans == |objects|
    ensures buffer != null <==> memory
    ensures buffer != null ==> fresh(buffer)
    ensures buffer != null ==> pos == PosAt(objects, 0) && Going(buffer[..], objects, includeEvents, 0)
  {
    var estimated := Estimate(spans, includeEvents);
    if !memory {
      return null, 0;
    }
    buffer := new char[estimated];
    pos := Snprintf(buffer, 0, estimated, "[\n");
    assert TextAt(objects, 0) == "[\n";
    assert buffer[..][..2] == buffer[..2];
  }

  /** One round: print the record, then double the block when fewer than 512
      bytes are left.  The record may end up cut, but nothing is written outside. */
  method AppendRecord(buffer: array<char>, pos: nat, record: string, ghost objects: seq<string>, ghost n: nat,
                      includeEvents: bool, memory: bool)
    returns (grown: array?<char>, end: nat)
    requires n < |objects| && record == Record(objects, n) && Printable(objects)
    requires pos == PosAt(objects, n) && Going(buffer[..], objects, includeEvents, n)
    modifies buffer
    ensures grown == null ==> !memory
    ensures grown != null ==> (grown == buffer || fresh(grown))
    ensures grown != null ==> end == PosAt(objects, n + 1) && Going(grown[..], objects, includeEvents, n + 1)
  {
    ghost var was := buffer[..];
    var estimated := buffer.Length;
    NoOverrun(objects, includeEvents, n);
    var wanted := Snprintf(buffer, pos, estimated - pos, record);
    end := pos + wanted;
    ghost var now := buffer[..];
    assert now[..pos] == was[..pos];
    assert end < estimated ==> now[..end] == was[..pos] + record;
    Printed(was, now, objects, includeEvents, n);
    if end < estimated - 512 {
      Grown(now, now, objects, includeEvents, n);
      return buffer, end;
    }
    grown := Realloc(buffer, 2 * estimated, memory);
    if grown != null {
      Grown(now, grown[..], objects, includeEvents, n);
    }
  }

  /** What a block holds after the print of record n, still in the block of its round. */
  ghost predicate Holds(now: seq<char>, objects: seq<string>, includeEvents: bool, n: nat)
    requires n < |objects|
  {
    if FirstFit(objects, includeEvents, n + 1) then HoldsCString(now, TextAt(objects, n + 1))
    else WasCut(now, PosAt(objects, n + 1))
  }

  lemma Printed(was: seq<char>, now: seq<char>, objects: seq<string>, includeEvents: bool, n: nat)
    requires n < |objects| && Going(was, objects, includeEvents, n)
    requires PosAt(objects, n) < |was| == |now| && now[..PosAt(objects, n)] == was[..PosAt(objects, n)]
    requires var pos, record := PosAt(objects, n), Record(objects, n);
             var end := pos + |record|;
             && (end < |now| ==> now[..end] == was[..pos] + record && now[end] == '\0')
             && (end >= |now| ==> now[|now| - 1] == '\0')
    ensures PosAt(objects, n + 1) == PosAt(objects, n) + |Record(objects, n)|
    ensures Holds(now, objects, includeEvents, n)
  {
    hide Record, SizeAt;
    var pos, text := PosAt(objects, n), TextAt(objects, n);
    var end := pos + |Record(objects, n)|;
    NextPos(objects, n);
    if FirstFit(objects, includeEvents, n) {
      if end < |now| {
        assert FirstFit(objects, includeEvents, n + 1);
        assert was[..pos] == text;
      } else {
        assert PosAt(objects, n + 1) >= SizeAt(objects, includeEvents, n);
        assert !FirstFit(objects, includeEvents, n + 1);
      }
    } else {
      var c :| 0 <= c < pos && c < |was| && was[c] == '\0';
      assert now[..pos][c] == was[..pos][c];
      assert !FirstFit(objects, includeEvents, n + 1);
    }
  }

  lemma Grown(now: seq<char>, grown: seq<char>, objects: seq<string>, includeEvents: bool, n: nat)
    requires n < |objects| && Holds(now, objects, includeEvents, n)
    requires |now| <= |grown| == SizeAt(objects, includeEvents, n + 1) && grown[..|now|] == now
    ensures Going(grown, objects, includeEvents, n + 1)
  {
  }

  /** The closing bracket completes a whole text and leaves a cut one cut. */
  lemma Closing(was: seq<char>, bytes: seq<char>, objects: seq<string>, includeEvents: bool)
    requires objects != [] && Printable(objects) && Going(was, objects, includeEvents, |objects|)
    requires forall i :: 0 <= i < |objects| ==> NoNul(objects[i])
    requires |was| == |bytes| && PosAt(objects, |objects|) < |bytes|
    requires var pos := PosAt(objects, |objects|);
             && bytes[..pos] == was[..pos]
             && (pos + 1 < |bytes| ==> bytes[..pos + 1] == was[..pos] + "]" && bytes[pos + 1] == '\0')
    ensures HoldsCString(bytes, ArrayOf(objects)) <==> AllFit(objects, includeEvents)
  {
    var text, pos := TextAt(objects, |objects|), PosAt(objects, |objects|);
    RecordsAreJoined(objects, |objects|);
    assert objects[..|objects|] == objects;
    assert ArrayOf(objects) == text + "]";
    if AllFit(objects, includeEvents) {
      RoomForBracket(objects, includeEvents);
      assert was[..pos] == text;
    } else {
      var c :| 0 <= c < pos && c < |was| && was[c] == '\0';
      assert bytes[..pos][c] == was[..pos][c];
      RecordsHaveNoNul(objects, |objects|);
      assert ArrayOf(objects)[c] == text[c] != '\0';
      NulCuts(bytes, ArrayOf(objects), c);
    }
  }

  lemma NulCuts(bytes: seq<char>, text: string, c: nat)
    requires c < |bytes| && c < |text| && bytes[c] == '\0' && text[c] != '\0'
    ensures !HoldsCString(bytes, text)
  {
  }

  lemma RoomForBracket(objects: seq<string>, includeEvents: bool)
    requires objects != [] && AllFit(objects, includeEvents)
    ensures PosAt(objects, |objects|) + 1 < SizeAt(objects, includeEvents, |objects|)
  {
    var n := |objects|;
    assert PosAt(objects, n - 1 + 1) < SizeAt(objects, includeEvents, n - 1);
  }

  lemma {:induction false} RecordsHaveNoNul(objects: seq<string>, n: nat)
    requires n <= |objects| && forall i :: 0 <= i < |objects| ==> NoNul(objects[i])
    ensures NoNul(TextAt(objects, n))
  {
    if n > 0 {
      RecordsHaveNoNul(objects, n - 1);
      assert NoNul(Record(objects, n - 1));
      NextPos(objects, n - 1);
    }
  }

  // ---- No overrun ------------------------------------------------------------

  /** No record is longer than a span can make it. */
  ghost predicate Printable(objects: seq<string>) {
    forall i :: 0 <= i < |objects| ==> |Record(objects, i)| <= 656
  }

  /** pos stays inside the block in every round, even when a record is cut, so the
      size that is passed to snprintf does not wrap around. */
  lemma {:induction false} NoOverrun(objects: seq<string>, includeEvents: bool, n: nat)
    requires objects != [] && Printable(objects) && n <= |objects|
    ensures PosAt(objects, n) < SizeAt(objects, includeEvents, n)
  {
    if n > 0 {
      NoOverrun(objects, includeEvents, n - 1);
      NextPos(objects, n - 1);
      assert n == 1 ==> PosAt(objects, 0) == 2;
    }
  }

  lemma LegalSpansArePrintable(spans: seq<SpanInfo>, includeEvents: bool)
    requires forall i :: 0 <= i < |spans| ==> FitsStruct(spans[i])
    ensures Printable(Objects(spans, includeEvents))
    ensures forall i :: 0 <= i < |spans| ==> NoNul(Objects(spans, includeEvents)[i])
  {
    hide Object;
    var objects := Objects(spans, includeEvents);
    forall i | 0 <= i < |spans|
      ensures |Record(objects, i)| <= 656 && NoNul(objects[i])
    {
      ObjectHasNoNul(spans[i], includeEvents);
      ObjectLength(spans[i], includeEvents);
      LegalRoom(spans[i]);
    }
  }

  lemma LegalRoom(s: SpanInfo)
    requires FitsStruct(s)
    ensures Room(s) <= 470
  {
    EscapeBounds(s.name);
    Text.PowersOfTen();
    Text.DigitsLength(s.startNs, 20);
    Text.DigitsLength(s.endNs, 20);
    Text.DigitsLength(s.attributeCount, 20);
  }

  // ---- How long a record gets -----------------------------------------------

  ghost function Room(s: SpanInfo): nat {
    |s.traceId| + |s.spanId| + |s.parentSpanId| + |Escape(s.name)| + |s.status|
    + |Text.Digits(s.startNs)| + |Text.Digits(s.endNs)| + |Text.Digits(s.attributeCount)|
  }

  lemma ObjectLength(s: SpanInfo, includeEvents: bool)
    ensures |Object(s, Escape(s.name), includeEvents)| == 165 + Room(s) + (if includeEvents then 18 else 0)
  {
  }

  /** pos in terms of what the spans hold, and so what AllFit asks of them. */
  ghost function LengthAt(spans: seq<SpanInfo>, includeEvents: bool, n: nat): nat
    requires n <= |spans|
  {
    if n == 0 then 2
    else
      LengthAt(spans, includeEvents, n - 1) + Room(spans[n - 1]) + 165 + (if includeEvents then 18 else 0) +
      (if n < |spans| then 2 else 1)
  }

  lemma {:induction false} PosFromFields(spans: seq<SpanInfo>, includeEvents: bool, n: nat)
    requires n <= |spans|
    ensures PosAt(Objects(spans, includeEvents), n) == LengthAt(spans, includeEvents, n)
  {
    hide Object, Room;
    var objects := Objects(spans, includeEvents);
    if n > 0 {
      PosFromFields(spans, includeEvents, n - 1);
      ObjectLength(spans[n - 1], includeEvents);
      NextPos(objects, n - 1);
    }
  }

  ghost predicate ShortRecords(objects: seq<string>) {
    forall i :: 0 <= i < |objects| ==> |Record(objects, i)| <= 511
  }

  /** Records of at most 511 bytes always fit, however many there are. */
  lemma ShortRecordsFit(objects: seq<string>, includeEvents: bool)
    requires objects != [] && ShortRecords(objects)
    ensures AllFit(objects, includeEvents)
  {
    hide SizeAt, PosAt, Record;
    forall i | 0 <= i < |objects|
      ensures PosAt(objects, i + 1) < SizeAt(objects, includeEvents, i)
    {
      ShortRecordsLeaveRoom(objects, includeEvents, i);
      NextPos(objects, i);
    }
  }

  lemma {:induction false} ShortRecordsLeaveRoom(objects: seq<string>, includeEvents: bool, n: nat)
    requires objects != [] && ShortRecords(objects) && n <= |objects|
    ensures PosAt(objects, n) + 512 < SizeAt(objects, includeEvents, n)
  {
    if n > 0 {
      ShortRecordsLeaveRoom(objects, includeEvents, n - 1);
      NextPos(objects, n - 1);
    } else {
      assert TextAt(objects, 0) == "[\n";
    }
  }

  /** The bound of 511 in terms of what the spans hold. */
  lemma WhenRecordsAreShort(spans: seq<SpanInfo>, includeEvents: bool)
    ensures ShortRecords(Objects(spans, includeEvents)) <==>
      forall i :: 0 <= i < |spans| ==>
        Room(spans[i]) <= 345 - (if includeEvents then 18 else 0) - (if i < |spans| - 1 then 1 else 0)
  {
    hide Object;
    var objects := Objects(spans, includeEvents);
    forall i | 0 <= i < |spans|
      ensures |Record(objects, i)| ==
        165 + Room(spans[i]) + (if includeEvents then 18 else 0) + (if i < |spans| - 1 then 2 else 1)
    {
      ObjectLength(spans[i], includeEvents);
    }
  }

  function Repeat(c: char, n: nat): (s: string)
    ensures |s| == n && forall i :: 0 <= i < n ==> s[i] == c
  {
    seq(n, _ => c)
  }

  lemma {:induction false} EscapeOfQuotes(n: nat)
    ensures |Escape(Repeat('\"', n))| == 2 * n
  {
    if n > 0 {
      assert Repeat('\"', n)[..n - 1] == Repeat('\"', n - 1);
      EscapeOfQuotes(n - 1);
    }
  }

  /** For a single span the condition is a length: its object and the text around it
      must end inside the first block. */
  lemma OneSpanFits(text: string, includeEvents: bool)
    ensures AllFit([text], includeEvents) <==> |text| + 3 < if includeEvents then 832 else 576
  {
    var objects := [text];
    assert Records(objects, 0) == "";
    assert Records(objects, 1) == Records(objects, 0) + Record(objects, 0);
    assert PosAt(objects, 1) == |text| + 3;
    assert PosAt(objects, 0 + 1) == |text| + 3 && SizeAt(objects, includeEvents, 0) == Estimate(1, includeEvents);
  }

  /** A span that is legal in every field and whose export is cut: long ids and a
      name of 127 quotes. */
  lemma LegalSpanIsCut(s: SpanInfo)
    requires s == SpanInfo(Repeat('a', 63), Repeat('b', 31), Repeat('c', 31), Repeat('\"', 127), "",
                           0, 0, "", Repeat('d', 31), 0)
    ensures FitsStruct(s) && !AllFit(Objects([s], false), false)
  {
    EscapeOfQuotes(127);
    var objects := Objects([s], false);
    PosFromFields([s], false, 0);
    PosFromFields([s], false, 1);
    hide Object;
    assert PosAt(objects, 1) >= SizeAt(objects, false, 0);
  }
}
