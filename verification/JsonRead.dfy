/** A reader of the exported JSON, written down from the format alone, and when
    what was exported reads back. */
module JsonRead {
  import opened Status
  import opened SpanBuffer
  import opened JsonExport
  import Text = VersionText

  // ---- The reader -----------------------------------------------------------

  datatype Parsed<+T> = Got(value: T, rest: string) | Bad

  ghost function Expect(s: string, token: string): Option<string> {
    if token <= s then Some(s[|token|..]) else None
  }

  /** The rest of a string literal, behind its opening quote. */
  ghost function ReadText(s: string): Parsed<string> {
    if s == [] then Bad
    else if s[0] == '\"' then Got("", s[1..])
    else if s[0] == '\\' then
      if |s| < 2 then Bad
      else
        match ReadText(s[2..])
        case Bad => Bad
        case Got(text, rest) => Got([s[1]] + text, rest)
    else
      match ReadText(s[1..])
      case Bad => Bad
      case Got(text, rest) => Got([s[0]] + text, rest)
  }

  ghost function DigitRun(s: string): (n: nat)
    ensures n <= |s| && Text.AllDigits(s[..n])
  {
    if s == [] || !Text.IsDigit(s[0]) then 0
    else
      var n := DigitRun(s[1..]) + 1;
      assert forall i :: 0 < i < n ==> s[..n][i] == s[1..][..n - 1][i - 1];
      n
  }

  ghost function ReadNumber(s: string): Parsed<nat> {
    var n := DigitRun(s);
    if n == 0 then Bad else Got(Text.Value(s[..n]), s[n..])
  }

  /** `"field": "text",` on a line of its own. */
  ghost function ReadLine(s: string, field: string): Parsed<string> {
    match Expect(s, "    \"" + field + "\": \"")
    case None => Bad
    case Some(open) =>
      match ReadText(open)
      case Bad => Bad
      case Got(text, rest) =>
        match Expect(rest, ",\n")
        case None => Bad
        case Some(after) => Got(text, after)
  }

  /** `"field": number` */
  ghost function ReadField(s: string, field: string): Parsed<nat> {
    match Expect(s, "    \"" + field + "\": ")
    case None => Bad
    case Some(open) => ReadNumber(open)
  }

  datatype Head = Head(traceId: string, spanId: string, parentSpanId: string, name: string)

  datatype Tail = Tail(startNs: nat, endNs: nat, status: string, attributeCount: nat)

  datatype Fields = Fields(head: Head, tail: Tail)

  ghost function ReadHead(s: string): Parsed<Head> {
    match ReadLine(s, "traceId")
    case Bad => Bad
    case Got(traceId, s1) =>
      match ReadLine(s1, "spanId")
      case Bad => Bad
      case Got(spanId, s2) =>
        match ReadLine(s2, "parentSpanId")
        case Bad => Bad
        case Got(parentSpanId, s3) =>
          match ReadLine(s3, "name")
          case Bad => Bad
          case Got(name, s4) => Got(Head(traceId, spanId, parentSpanId, name), s4)
  }

  /** A number and the line end behind it. */
  ghost function ReadNumberLine(s: string, field: string): Parsed<nat> {
    match ReadField(s, field)
    case Bad => Bad
    case Got(n, rest) =>
      match Expect(rest, ",\n")
      case None => Bad
      case Some(after) => Got(n, after)
  }

  ghost function ReadTail(s: string): Parsed<Tail> {
    match ReadNumberLine(s, "startTimeNs")
    case Bad => Bad
    case Got(startNs, s1) =>
      match ReadNumberLine(s1, "endTimeNs")
      case Bad => Bad
      case Got(endNs, s2) =>
        match ReadLine(s2, "status")
        case Bad => Bad
        case Got(status, s3) =>
          match ReadField(s3, "attributeCount")
          case Bad => Bad
          case Got(count, s4) => Got(Tail(startNs, endNs, status, count), s4)
  }

  const EVENTS := ",\n    \"events\": []"

  ghost function ReadObject(s: string, events: bool): Parsed<Fields> {
    match Expect(s, "  {\n")
    case None => Bad
    case Some(open) =>
      match ReadHead(open)
      case Bad => Bad
      case Got(head, middle) =>
        match ReadTail(middle)
        case Bad => Bad
        case Got(tail, end) =>
          match Expect(end, (if events then EVENTS else "") + "\n  }")
          case None => Bad
          case Some(rest) => Got(Fields(head, tail), rest)
  }

  /** n objects with commas between them. */
  ghost function ReadObjects(s: string, n: nat, events: bool): Parsed<seq<Fields>>
    decreases n
  {
    if n == 0 then Got([], s)
    else
      match ReadObject(s, events)
      case Bad => Bad
      case Got(first, rest) =>
        if n == 1 then Got([first], rest)
        else
          match Expect(rest, ",\n")
          case None => Bad
          case Some(next) =>
            match ReadObjects(next, n - 1, events)
            case Bad => Bad
            case Got(others, end) => Got([first] + others, end)
  }

  /** The whole array of n objects, and nothing behind it. */
  ghost function ReadArray(s: string, n: nat, events: bool): Option<seq<Fields>> {
    if n == 0 then if s == "[]" then Some([]) else None
    else
      match Expect(s, "[\n")
      case None => None
      case Some(open) =>
        match ReadObjects(open, n, events)
        case Bad => None
        case Got(fields, rest) => if rest == "\n]" then Some(fields) else None
  }

  // ---- Texts ----------------------------------------------------------------

  /** Nothing in it that a reader of string literals would take for something else. */
  ghost predicate Plain(s: string) {
    forall i :: 0 <= i < |s| ==> s[i] != '\"' && s[i] != '\\'
  }

  lemma ExpectIt(token: string, rest: string)
    ensures Expect(token + rest, token) == Some(rest)
  {
  }

  lemma {:induction false} EscapeFirst(c: char, s: string)
    ensures Escape([c] + s) == EscapeChar(c) + Escape(s)
  {
    var t := [c] + s;
    if s == [] {
      assert t[..0] == [];
    } else {
      assert t[..|t| - 1] == [c] + s[..|s| - 1];
      EscapeFirst(c, s[..|s| - 1]);
    }
  }

  /** An escaped text reads back as what it was. */
  lemma {:induction false} EscapedReads(s: string, rest: string)
    ensures ReadText(Escape(s) + ("\"" + rest)) == Got(s, rest)
  {
    if s == [] {
      assert "\"" + rest == Escape(s) + ("\"" + rest);
    } else {
      assert s == [s[0]] + s[1..];
      EscapeFirst(s[0], s[1..]);
      EscapedReads(s[1..], rest);
      var after := Escape(s[1..]) + ("\"" + rest);
      assert Escape(s) + ("\"" + rest) == EscapeChar(s[0]) + after;
      assert (EscapeChar(s[0]) + after)[|EscapeChar(s[0])|..] == after;
    }
  }

  /** Text with k backslashes before it never comes out of the text alone. */
  lemma {:induction false} NeverReads(k: nat, s: string, rest: string)
    requires k > 0
    ensures ReadText(s + ("\"" + rest)) != Bad ==>
      ReadText(s + ("\"" + rest)).value != seq(k, _ => '\\') + s
    decreases |s|
  {
    var text := s + ("\"" + rest);
    if ReadText(text) != Bad && ReadText(text).value == seq(k, _ => '\\') + s {
      var value := ReadText(text).value;
      assert value[0] == '\\' && |value| == k + |s|;
      assert s != [] && s[0] == '\\' && |s| >= 2 && text[1] == s[1] == '\\';
      assert text[2..] == s[2..] + ("\"" + rest);
      assert value[1..] == seq(k + 1, _ => '\\') + s[2..];
      NeverReads(k + 1, s[2..], rest);
    }
  }

  /** A text printed as it is reads back exactly when it is plain. */
  lemma {:induction false} PlainReads(s: string, rest: string)
    ensures Plain(s) ==> ReadText(s + ("\"" + rest)) == Got(s, rest)
    ensures ReadText(s + ("\"" + rest)) != Bad && ReadText(s + ("\"" + rest)).value == s ==> Plain(s)
  {
    var text := s + ("\"" + rest);
    if s != [] {
      assert s == [s[0]] + s[1..];
      if s[0] == '\\' {
        assert text[1] == if |s| >= 2 then s[1] else '\"';
        if |s| >= 2 && s[1] == '\\' {
          assert text[2..] == s[2..] + ("\"" + rest);
          assert seq(1, _ => '\\') + s[2..] == s[1..];
          NeverReads(1, s[2..], rest);
        }
      } else if s[0] != '\"' {
        assert text[1..] == s[1..] + ("\"" + rest);
        PlainReads(s[1..], rest);
        assert Plain(s[1..]) ==> Plain(s);
      }
    }
  }

  lemma LineReads(field: string, printed: string, text: string, rest: string)
    ensures ReadLine(Line(field, printed) + rest, field) ==
            match ReadText(printed + ("\"" + (",\n" + rest)))
            case Bad => Bad
            case Got(text, after) =>
              match Expect(after, ",\n")
              case None => Bad
              case Some(end) => Got(text, end)
  {
    var token := "    \"" + field + "\": \"";
    assert Line(field, printed) + rest == token + (printed + ("\"" + (",\n" + rest)));
    ExpectIt(token, printed + ("\"" + (",\n" + rest)));
  }

  lemma PlainLine(field: string, text: string, rest: string)
    ensures Plain(text) ==> ReadLine(Line(field, text) + rest, field) == Got(text, rest)
    ensures var read := ReadLine(Line(field, text) + rest, field);
      read != Bad && read.value == text ==> Plain(text)
  {
    hide Line, ReadLine, ReadText, Plain, Expect;
    LineReads(field, text, text, rest);
    PlainReads(text, ",\n" + rest);
    ExpectIt(",\n", rest);
  }

  lemma EscapedLine(field: string, text: string, rest: string)
    ensures ReadLine(Line(field, Escape(text)) + rest, field) == Got(text, rest)
  {
    hide Line, ReadLine, ReadText, Expect, Escape;
    LineReads(field, Escape(text), text, rest);
    EscapedReads(text, ",\n" + rest);
    ExpectIt(",\n", rest);
  }

  // ---- Numbers --------------------------------------------------------------

  lemma {:induction false} DigitsEnd(digits: string, rest: string)
    requires Text.AllDigits(digits) && (rest == "" || !Text.IsDigit(rest[0]))
    ensures DigitRun(digits + rest) == |digits|
  {
    if digits == [] {
      assert digits + rest == rest;
    } else {
      assert (digits + rest)[1..] == digits[1..] + rest;
      DigitsEnd(digits[1..], rest);
    }
  }

  lemma FieldReads(field: string, n: nat, rest: string)
    requires rest == "" || !Text.IsDigit(rest[0])
    ensures ReadField(Number(field, n) + rest, field) == Got(n, rest)
  {
    var token, digits := "    \"" + field + "\": ", Text.Digits(n);
    assert Number(field, n) + rest == token + (digits + rest);
    ExpectIt(token, digits + rest);
    DigitsEnd(digits, rest);
    assert (digits + rest)[..|digits|] == digits;
  }

  lemma NumberLineReads(field: string, n: nat, rest: string)
    ensures ReadNumberLine(Number(field, n) + (",\n" + rest), field) == Got(n, rest)
  {
    hide Number, ReadField, Expect;
    FieldReads(field, n, ",\n" + rest);
    ExpectIt(",\n", rest);
  }

  // ---- Objects --------------------------------------------------------------

  function HeadOf(s: SpanInfo): Head {
    Head(s.traceId, s.spanId, s.parentSpanId, s.name)
  }

  function TailOf(s: SpanInfo): Tail {
    Tail(s.startNs, s.endNs, s.status, s.attributeCount)
  }

  function FieldsOf(s: SpanInfo): Fields {
    Fields(HeadOf(s), TailOf(s))
  }

  ghost predicate PlainIds(s: SpanInfo) {
    Plain(s.traceId) && Plain(s.spanId) && Plain(s.parentSpanId)
  }

  lemma HeadReads(s: SpanInfo, rest: string)
    ensures var text := Line("traceId", s.traceId) + (Line("spanId", s.spanId) +
                        (Line("parentSpanId", s.parentSpanId) + (Line("name", Escape(s.name)) + rest)));
      && (PlainIds(s) ==> ReadHead(text) == Got(HeadOf(s), rest))
      && (ReadHead(text) != Bad && ReadHead(text).value == HeadOf(s) ==> PlainIds(s))
  {
    hide Line, ReadLine, Plain, Escape;
    var four := Line("name", Escape(s.name)) + rest;
    var three := Line("parentSpanId", s.parentSpanId) + four;
    var two := Line("spanId", s.spanId) + three;
    PlainLine("traceId", s.traceId, two);
    PlainLine("spanId", s.spanId, three);
    PlainLine("parentSpanId", s.parentSpanId, four);
    EscapedLine("name", s.name, rest);
  }

  lemma TailReads(s: SpanInfo, rest: string)
    requires rest == "" || !Text.IsDigit(rest[0])
    ensures var text := Number("startTimeNs", s.startNs) + (",\n" + (Number("endTimeNs", s.endNs) + (",\n" +
                        (Line("status", s.status) + (Number("attributeCount", s.attributeCount) + rest)))));
      && (Plain(s.status) ==> ReadTail(text) == Got(TailOf(s), rest))
      && (ReadTail(text) != Bad && ReadTail(text).value == TailOf(s) ==> Plain(s.status))
  {
    hide Line, Number, ReadLine, ReadNumberLine, ReadField, Plain;
    var four := Number("attributeCount", s.attributeCount) + rest;
    var three := Line("status", s.status) + four;
    var two := Number("endTimeNs", s.endNs) + (",\n" + three);
    NumberLineReads("startTimeNs", s.startNs, two);
    NumberLineReads("endTimeNs", s.endNs, three);
    PlainLine("status", s.status, four);
    FieldReads("attributeCount", s.attributeCount, rest);
  }

  ghost predicate PlainSpan(s: SpanInfo) {
    PlainIds(s) && Plain(s.status)
  }

  function Ending(events: bool): string {
    (if events then EVENTS else "") + "\n  }"
  }

  lemma NamesText(s: SpanInfo, escaped: string, rest: string)
    ensures Names(s, escaped) + rest == "  {\n" + (Line("traceId", s.traceId) + (Line("spanId", s.spanId) +
                                        (Line("parentSpanId", s.parentSpanId) + (Line("name", escaped) + rest))))
  {
    hide Line;
  }

  lemma ValuesText(s: SpanInfo, events: bool, rest: string)
    ensures Values(s, events) + ("\n  }" + rest) ==
            Number("startTimeNs", s.startNs) + (",\n" + (Number("endTimeNs", s.endNs) + (",\n" +
            (Line("status", s.status) + (Number("attributeCount", s.attributeCount) + (Ending(events) + rest))))))
  {
    hide Line, Number;
  }

  lemma ObjectText(s: SpanInfo, events: bool, rest: string)
    ensures Object(s, Escape(s.name), events) + rest ==
            Names(s, Escape(s.name)) + (Values(s, events) + ("\n  }" + rest))
  {
    hide Names, Values, Escape;
  }

  /** An object reads back exactly when the fields printed without escaping are
      plain. */
  lemma ObjectReads(s: SpanInfo, events: bool, rest: string)
    ensures var text := Object(s, Escape(s.name), events) + rest;
      && (PlainSpan(s) ==> ReadObject(text, events) == Got(FieldsOf(s), rest))
      && (ReadObject(text, events) != Bad && ReadObject(text, events).value == FieldsOf(s) ==> PlainSpan(s))
  {
    hide Line, Number, Escape, Object, ReadHead, ReadTail, PlainIds, Plain, Expect;
    var end := Ending(events) + rest;
    var tail := Number("startTimeNs", s.startNs) + (",\n" + (Number("endTimeNs", s.endNs) + (",\n" +
                (Line("status", s.status) + (Number("attributeCount", s.attributeCount) + end)))));
    var head := Line("traceId", s.traceId) + (Line("spanId", s.spanId) +
                (Line("parentSpanId", s.parentSpanId) + (Line("name", Escape(s.name)) + tail)));
    ObjectText(s, events, rest);
    ValuesText(s, events, rest);
    NamesText(s, Escape(s.name), tail);
    ExpectIt("  {\n", head);
    HeadReads(s, tail);
    TailReads(s, end);
    ExpectIt(Ending(events), rest);
  }

  // ---- The array --------------------------------------------------------------

  lemma {:induction false} JoinFirst(objects: seq<string>, separator: string)
    requires |objects| > 1
    ensures Join(objects, separator) == objects[0] + separator + Join(objects[1..], separator)
  {
    var n := |objects| - 1;
    if n > 1 {
      JoinFirst(objects[..n], separator);
      assert objects[..n][1..] == objects[1..][..n - 1];
      assert Join(objects[1..], separator) == Join(objects[1..][..n - 1], separator) + separator + objects[n];
    }
  }

  ghost predicate AllPlain(spans: seq<SpanInfo>) {
    forall i :: 0 <= i < |spans| ==> PlainSpan(spans[i])
  }

  function AllFields(spans: seq<SpanInfo>): seq<Fields> {
    seq(|spans|, i requires 0 <= i < |spans| => FieldsOf(spans[i]))
  }

  lemma {:induction false} ObjectsRead(spans: seq<SpanInfo>, events: bool, rest: string)
    requires spans != []
    ensures var text := Join(Objects(spans, events), ",\n") + rest;
      && (AllPlain(spans) ==> ReadObjects(text, |spans|, events) == Got(AllFields(spans), rest))
      && var read := ReadObjects(text, |spans|, events);
         (read != Bad && read.value == AllFields(spans) ==> AllPlain(spans))
  {
    hide Object, ReadObject, PlainSpan, FieldsOf, Join, Expect, AllPlain;
    var objects, first := Objects(spans, events), spans[0];
    PlainFirst(spans);
    if |spans| == 1 {
      JoinOne(objects, ",\n");
      ObjectReads(first, events, rest);
      assert AllFields(spans) == [FieldsOf(first)];
      NonePlain(spans[1..]);
    } else {
      var others := spans[1..];
      var next := Join(Objects(others, events), ",\n") + rest;
      JoinFirst(objects, ",\n");
      assert objects[1..] == Objects(others, events);
      assert Join(objects, ",\n") + rest == objects[0] + (",\n" + next);
      ObjectReads(first, events, ",\n" + next);
      ExpectIt(",\n", next);
      ObjectsRead(others, events, rest);
      FieldsSplit(spans);
      var read := ReadObjects(Join(objects, ",\n") + rest, |spans|, events);
      if read != Bad && read.value == AllFields(spans) {
        assert read.value[0] == FieldsOf(first) && read.value[1..] == AllFields(others);
      }
    }
  }

  lemma JoinOne(objects: seq<string>, separator: string)
    requires |objects| == 1
    ensures Join(objects, separator) == objects[0]
  {
  }

  lemma NonePlain(spans: seq<SpanInfo>)
    requires spans == []
    ensures AllPlain(spans)
  {
  }

  lemma FieldsSplit(spans: seq<SpanInfo>)
    requires spans != []
    ensures AllFields(spans) == [FieldsOf(spans[0])] + AllFields(spans[1..])
  {
  }

  lemma PlainFirst(spans: seq<SpanInfo>)
    requires spans != []
    ensures AllPlain(spans) <==> PlainSpan(spans[0]) && AllPlain(spans[1..])
  {
  }

  /** The exported array reads back as the fields of the spans, in order, exactly
      when no trace id, span id, parent id or status holds a quote or a backslash:
      only the name is escaped. */
  lemma ArrayReads(spans: seq<SpanInfo>, events: bool)
    ensures ReadArray(ArrayOf(Objects(spans, events)), |spans|, events) == Some(AllFields(spans))
            <==> AllPlain(spans)
  {
    if spans == [] {
      assert Objects(spans, events) == [] && AllFields(spans) == [];
    } else {
      SomeRead(spans, events);
    }
  }

  lemma SomeRead(spans: seq<SpanInfo>, events: bool)
    requires spans != []
    ensures ReadArray(ArrayOf(Objects(spans, events)), |spans|, events) == Some(AllFields(spans))
            <==> AllPlain(spans)
  {
    hide ReadObjects, AllPlain, Join, Expect;
    var text := Join(Objects(spans, events), ",\n");
    assert ArrayOf(Objects(spans, events)) == "[\n" + (text + "\n]");
    ExpectIt("[\n", text + "\n]");
    ObjectsRead(spans, events, "\n]");
  }
}
