/**
 The server-sent-event stream from the container agent to the host: the printers
 (workspace_agent/sdk_client.py `_format_sse`, app/utils/streaming.py `event_to_sse_bytes`) and the
 incremental reader (app/services/execute_service.py `_stream_from_container`, `_parse_sse_event`).

 Text is a sequence of characters; JSON is left as text, and `isJson` says which texts decode.
 */
module SseStream {
  import opened Text
  import opened Wrappers

  datatype Payload = Decoded(json: string) | Raw(text: string)

  datatype Event = Event(kind: string, data: Payload)

  // ---- Python string primitives ----

  predicate IsSpace(c: char) {
    var n := c as int;
    || 0x9 <= n <= 0xD || 0x1C <= n <= 0x20 || n == 0x85 || n == 0xA0 || n == 0x1680
    || 0x2000 <= n <= 0x200A || n == 0x2028 || n == 0x2029 || n == 0x202F || n == 0x205F || n == 0x3000
  }

  function TrimLeft(s: string): string {
    if s != "" && IsSpace(s[0]) then TrimLeft(s[1..]) else s
  }

  function TrimRight(s: string): string {
    if s != "" && IsSpace(s[|s| - 1]) then TrimRight(s[..|s| - 1]) else s
  }

  function Strip(s: string): string {
    TrimRight(TrimLeft(s))
  }

  /** No whitespace at either end. */
  predicate Stripped(s: string) {
    s != "" ==> !IsSpace(s[0]) && !IsSpace(s[|s| - 1])
  }

  function SplitLines(s: string): seq<string> {
    Split(s, '\n')
  }

  predicate BlankLineAt(s: string, i: nat) {
    i + 1 < |s| && s[i] == '\n' && s[i + 1] == '\n'
  }

  /** The index of the first "\n\n" at or after `k`, or |s| when there is none. */
  function FindBlankLineFrom(s: string, k: nat): (i: nat)
    requires k <= |s|
    ensures k <= i <= |s| && (i < |s| ==> BlankLineAt(s, i))
    ensures forall j: nat :: k <= j < i ==> !BlankLineAt(s, j)
    decreases |s| - k
  {
    if k == |s| || BlankLineAt(s, k) then k else FindBlankLineFrom(s, k + 1)
  }

  function FindBlankLine(s: string): nat {
    FindBlankLineFrom(s, 0)
  }

  lemma FirstBlankLineIsUnique(s: string, i: nat)
    requires BlankLineAt(s, i) && forall j: nat :: j < i ==> !BlankLineAt(s, j)
    ensures FindBlankLine(s) == i
  {
  }

  // ---- the printers ----

  const EVENT_FIELD := "event: "
  const DATA_FIELD := "data: "

  function Frame(kind: string, json: string): string {
    EVENT_FIELD + kind + "\n" + DATA_FIELD + json
  }

  function Frames(es: seq<Event>): seq<string>
    requires forall e :: e in es ==> e.data.Decoded?
  {
    seq(|es|, i requires 0 <= i < |es| => assert es[i] in es; Frame(es[i].kind, es[i].data.json))
  }

  /** Each frame followed by a blank line. */
  function Join(frames: seq<string>): string {
    if frames == [] then "" else frames[0] + "\n\n" + Join(frames[1..])
  }

  function Print(es: seq<Event>): string
    requires forall e :: e in es ==> e.data.Decoded?
  {
    Join(Frames(es))
  }

  /** JSON text of an object: not empty, no raw newline, and it ends in a brace. */
  ghost predicate ObjectText(json: string) {
    json != "" && '\n' !in json && !IsSpace(json[|json| - 1])
  }

  // ---- the reader ----

  function ParseLines(lines: seq<string>, kind: string, text: string): (string, string)
    decreases |lines|
  {
    if lines == [] then (kind, text)
    else if EVENT_FIELD <= lines[0] then ParseLines(lines[1..], Strip(lines[0][7..]), text)
    else if DATA_FIELD <= lines[0] then ParseLines(lines[1..], kind, lines[0][6..])
    else ParseLines(lines[1..], kind, text)
  }

  function ParseFrame(frame: string, isJson: string -> bool): seq<Event> {
    var (kind, text) := ParseLines(SplitLines(Strip(frame)), "message", "");
    if text == "" then []
    else [Event(kind, if isJson(text) then Decoded(text) else Raw(text))]
  }

  /** What follows the field name on the last line that begins with it. */
  ghost function LastField(lines: seq<string>, field: string): Option<string>
    decreases |lines|
  {
    if lines == [] then None
    else
      var last := lines[|lines| - 1];
      if field <= last then Some(last[|field|..]) else LastField(lines[..|lines| - 1], field)
  }

  lemma {:induction false} ParseLastLine(lines: seq<string>, last: string, kind: string, text: string)
    ensures var (k, t) := ParseLines(lines, kind, text);
            ParseLines(lines + [last], kind, text) == ParseLines([last], k, t)
    decreases |lines|
  {
    if lines == [] {
      assert lines + [last] == [last];
    } else {
      assert (lines + [last])[1..] == lines[1..] + [last];
      if EVENT_FIELD <= lines[0] {
        ParseLastLine(lines[1..], last, Strip(lines[0][7..]), text);
      } else if DATA_FIELD <= lines[0] {
        ParseLastLine(lines[1..], last, kind, lines[0][6..]);
      } else {
        ParseLastLine(lines[1..], last, kind, text);
      }
    }
  }

  /** The last line of each field counts, and all other lines are ignored. */
  lemma {:induction false} LastFieldsCount(lines: seq<string>, kind: string, text: string)
    ensures var (k, t) := ParseLines(lines, kind, text);
            var event, data := LastField(lines, "event: "), LastField(lines, "data: ");
            && k == (if event.Some? then Strip(event.value) else kind)
            && t == (if data.Some? then data.value else text)
    decreases |lines|
  {
    if lines != [] {
      var init, last := lines[..|lines| - 1], lines[|lines| - 1];
      assert lines == init + [last] && [last][1..] == [];
      assert "event: "[0] != "data: "[0];
      LastFieldsCount(init, kind, text);
      ParseLastLine(init, last, kind, text);
    }
  }

  /**
   What any frame parses to: nothing without data; otherwise the kind of its last event line, "message"
   if it has none, and its last data line, decoded if it is JSON and as it is if not.
   */
  lemma ParsedFrameIs(frame: string, isJson: string -> bool)
    ensures var lines := SplitLines(Strip(frame));
            var event, data := LastField(lines, "event: "), LastField(lines, "data: ");
            ParseFrame(frame, isJson) ==
            if data.None? || data.value == "" then []
            else [Event(if event.Some? then Strip(event.value) else "message",
                        if isJson(data.value) then Decoded(data.value) else Raw(data.value))]
  {
    LastFieldsCount(SplitLines(Strip(frame)), "message", "");
  }

  lemma {:induction false} TrimLeftIs(s: string) returns (k: nat)
    ensures k <= |s| && TrimLeft(s) == s[k..] && (k < |s| ==> !IsSpace(s[k]))
    ensures forall i :: 0 <= i < k ==> IsSpace(s[i])
  {
    k := 0;
    if s != "" && IsSpace(s[0]) {
      k := TrimLeftIs(s[1..]);
      k := k + 1;
      assert forall i :: 0 < i < k ==> s[i] == s[1..][i - 1];
    }
  }

  lemma {:induction false} TrimRightIs(s: string) returns (k: nat)
    ensures k <= |s| && TrimRight(s) == s[..k] && (k > 0 ==> !IsSpace(s[k - 1]))
    ensures forall i :: k <= i < |s| ==> IsSpace(s[i])
  {
    k := |s|;
    if s != "" && IsSpace(s[|s| - 1]) {
      k := TrimRightIs(s[..|s| - 1]);
      assert s[..|s| - 1][..k] == s[..k];
    }
  }

  /** Stripping takes away whitespace at both ends and nothing else. */
  lemma StripIs(s: string) returns (j: nat, k: nat)
    ensures j <= k <= |s| && Strip(s) == s[j..k]
    ensures forall i :: 0 <= i < j || k <= i < |s| ==> IsSpace(s[i])
    ensures j < k ==> !IsSpace(s[j]) && !IsSpace(s[k - 1])
  {
    j := TrimLeftIs(s);
    k := TrimRightIs(s[j..]);
    k := j + k;
    assert s[j..][..k - j] == s[j..k];
    assert forall i :: k <= i < |s| ==> s[i] == s[j..][i - j];
  }

  type FrameParser = string -> seq<Event>

  function Parser(isJson: string -> bool): FrameParser {
    frame => ParseFrame(frame, isJson)
  }

  /**
   Reading all complete frames of a text after the events `sofar`: all events, and the unfinished
   rest.
   */
  function Read(s: string, sofar: seq<Event>, parse: FrameParser): (seq<Event>, string)
    decreases |s|
  {
    var i := FindBlankLine(s);
    if i == |s| then (sofar, s)
    else Read(s[i + 2..], sofar + parse(s[..i]), parse)
  }

  function Concat(chunks: seq<string>): string {
    if chunks == [] then "" else chunks[0] + Concat(chunks[1..])
  }

  method ParseSseEvent(frame: string, isJson: string -> bool) returns (r: Option<Event>)
    ensures ParseFrame(frame, isJson) == if r.Some? then [r.value] else []
  {
    var kind, text := "message", "";
    var lines := SplitLines(Strip(frame));
    var i := 0;
    while i < |lines|
      invariant i <= |lines|
      invariant ParseLines(lines[i..], kind, text) == ParseLines(lines, "message", "")
    {
      var line := lines[i];
      assert lines[i..][1..] == lines[i + 1..];
      if EVENT_FIELD <= line {
        kind := Strip(line[7..]);
      } else if DATA_FIELD <= line {
        text := line[6..];
      }
      i := i + 1;
    }
    if text == "" {
      return None;
    }
    return Some(Event(kind, if isJson(text) then Decoded(text) else Raw(text)));
  }

  /** The inner loop over the complete frames in the buffer. */
  method DrainFrames(text: string, sofar: seq<Event>, isJson: string -> bool)
    returns (events: seq<Event>, buffer: string)
    ensures (events, buffer) == Read(text, sofar, Parser(isJson))
  {
    events, buffer := sofar, text;
    while FindBlankLine(buffer) < |buffer|
      invariant Read(buffer, events, Parser(isJson)) == Read(text, sofar, Parser(isJson))
      decreases |buffer|
    {
      var i := FindBlankLine(buffer);
      var e := ParseSseEvent(buffer[..i], isJson);
      if e.Some? {
        events := events + [e.value];
      } else {
        assert events + [] == events;
      }
      buffer := buffer[i + 2..];
    }
  }

  /** The buffer loop: whatever the chunking, it has read what a reader of the whole text reads. */
  method StreamFromContainer(chunks: seq<string>, isJson: string -> bool)
    returns (events: seq<Event>, buffer: string)
    ensures (events, buffer) == Read(Concat(chunks), [], Parser(isJson))
  {
    events, buffer := [], "";
    var n := 0;
    ghost var all := Concat(chunks);
    assert chunks[0..] == chunks && "" + all == all;
    while n < |chunks|
      invariant n <= |chunks|
      invariant Read(buffer + Concat(chunks[n..]), events, Parser(isJson)) == Read(all, [], Parser(isJson))
      invariant FindBlankLine(buffer) == |buffer|
    {
      NextChunk(buffer, chunks, n, events, Parser(isJson));
      ReadLeavesNoFrame(buffer + chunks[n], events, Parser(isJson));
      events, buffer := DrainFrames(buffer + chunks[n], events, isJson);
      n := n + 1;
    }
    assert buffer + Concat(chunks[n..]) == buffer;
  }

  lemma NextChunk(buffer: string, chunks: seq<string>, n: nat, events: seq<Event>, parse: FrameParser)
    requires n < |chunks|
    ensures var (events', rest) := Read(buffer + chunks[n], events, parse);
            Read(buffer + Concat(chunks[n..]), events, parse) == Read(rest + Concat(chunks[n + 1..]), events', parse)
  {
    var later := Concat(chunks[n + 1..]);
    assert chunks[n..][1..] == chunks[n + 1..];
    assert buffer + Concat(chunks[n..]) == (buffer + chunks[n]) + later;
    ReadInPortions(buffer + chunks[n], later, events, parse);
  }

  lemma {:induction false} ReadLeavesNoFrame(s: string, sofar: seq<Event>, parse: FrameParser)
    ensures var rest := Read(s, sofar, parse).1; FindBlankLine(rest) == |rest|
    decreases |s|
  {
    var i := FindBlankLine(s);
    if i < |s| {
      ReadLeavesNoFrame(s[i + 2..], sofar + parse(s[..i]), parse);
    }
  }

  lemma ReadStep(a: string, b: string, sofar: seq<Event>, parse: FrameParser)
    requires FindBlankLine(a) < |a|
    ensures var i := FindBlankLine(a);
            Read(a + b, sofar, parse) == Read(a[i + 2..] + b, sofar + parse(a[..i]), parse)
  {
    var i := FindBlankLine(a);
    assert forall j: nat :: j <= i ==> BlankLineAt(a + b, j) == BlankLineAt(a, j);
    FirstBlankLineIsUnique(a + b, i);
    assert (a + b)[i + 2..] == a[i + 2..] + b;
    assert (a + b)[..i] == a[..i];
  }

  /**
   Reading in two portions, keeping the unfinished rest of the first, is reading the whole; this
   holds of every text, well formed or not.
   */
  lemma {:induction false} ReadInPortions(a: string, b: string, sofar: seq<Event>, parse: FrameParser)
    ensures var (events, rest) := Read(a, sofar, parse);
            Read(a + b, sofar, parse) == Read(rest + b, events, parse)
    decreases |a|
  {
    var i := FindBlankLine(a);
    if i < |a| {
      ReadStep(a, b, sofar, parse);
      ReadInPortions(a[i + 2..], b, sofar + parse(a[..i]), parse);
    }
  }

  // ---- round trip ----

  lemma StripOfStripped(s: string)
    requires Stripped(s)
    ensures Strip(s) == s
  {
  }

  lemma {:induction false} TrimRightEnds(s: string)
    ensures TrimRight(s) != "" ==> !IsSpace(TrimRight(s)[|TrimRight(s)| - 1]) && s != "" && TrimRight(s)[0] == s[0]
    ensures forall c :: c !in s ==> c !in TrimRight(s)
  {
    if s != "" && IsSpace(s[|s| - 1]) {
      TrimRightEnds(s[..|s| - 1]);
    }
  }

  lemma {:induction false} TrimLeftEnds(s: string)
    ensures TrimLeft(s) != "" ==> !IsSpace(TrimLeft(s)[0])
    ensures forall c :: c !in s ==> c !in TrimLeft(s)
  {
    if s != "" && IsSpace(s[0]) {
      TrimLeftEnds(s[1..]);
    }
  }

  lemma StripEnds(s: string)
    ensures Stripped(Strip(s))
    ensures forall c :: c !in s ==> c !in Strip(s)
  {
    TrimLeftEnds(s);
    TrimRightEnds(TrimLeft(s));
  }

  /** A kind that the stream can carry: one line, without surrounding whitespace. */
  predicate CleanKind(kind: string) {
    '\n' !in kind && Stripped(kind)
  }

  lemma {:induction false} ParsedKindIsClean(lines: seq<string>, kind: string, text: string)
    requires CleanKind(kind) && forall l :: l in lines ==> '\n' !in l
    ensures CleanKind(ParseLines(lines, kind, text).0)
    decreases |lines|
  {
    if lines != [] {
      assert forall l :: l in lines[1..] ==> l in lines;
      if EVENT_FIELD <= lines[0] {
        StripEnds(lines[0][7..]);
        assert forall c :: c in lines[0][7..] ==> c in lines[0];
        ParsedKindIsClean(lines[1..], Strip(lines[0][7..]), text);
      } else if DATA_FIELD <= lines[0] {
        ParsedKindIsClean(lines[1..], kind, lines[0][6..]);
      } else {
        ParsedKindIsClean(lines[1..], kind, text);
      }
    }
  }

  lemma ParsedFrameIsClean(frame: string, isJson: string -> bool)
    ensures forall e :: e in ParseFrame(frame, isJson) ==> CleanKind(e.kind)
  {
    ParsedKindIsClean(SplitLines(Strip(frame)), "message", "");
  }

  lemma {:induction false} ReadKindsAreClean(s: string, sofar: seq<Event>, parse: FrameParser)
    requires forall e :: e in sofar ==> CleanKind(e.kind)
    requires forall f, e :: e in parse(f) ==> CleanKind(e.kind)
    ensures forall e :: e in Read(s, sofar, parse).0 ==> CleanKind(e.kind)
    decreases |s|
  {
    var i := FindBlankLine(s);
    if i < |s| {
      ReadKindsAreClean(s[i + 2..], sofar + parse(s[..i]), parse);
    }
  }

  lemma FrameLines(kind: string, json: string)
    requires CleanKind(kind) && ObjectText(json)
    ensures SplitLines(Frame(kind, json)) == [EVENT_FIELD + kind, DATA_FIELD + json]
  {
    var first, second := EVENT_FIELD + kind, DATA_FIELD + json;
    SplitAtSeparator(first, '\n', second);
    SplitAtSeparator(second, '\n', "");
    assert Frame(kind, json) == first + ['\n'] + second;
  }

  lemma FrameParses(kind: string, json: string, isJson: string -> bool)
    requires CleanKind(kind) && ObjectText(json) && isJson(json)
    ensures ParseFrame(Frame(kind, json), isJson) == [Event(kind, Decoded(json))]
  {
    var f := Frame(kind, json);
    assert f[0] == 'e' && f[|f| - 1] == json[|json| - 1];
    StripOfStripped(f);
    FrameLines(kind, json);
    var first, second := EVENT_FIELD + kind, DATA_FIELD + json;
    assert first[7..] == kind && second[6..] == json;
    StripOfStripped(kind);
    assert second[0] == 'd' && first[0] == 'e';
    assert [first, second][1..] == [second] && [second][1..] == [];
    assert ParseLines([second], kind, "") == (kind, json);
  }

  /** A text that the blank line after it ends, and nothing before. */
  ghost predicate Solid(frame: string) {
    && frame != "" && frame[|frame| - 1] != '\n'
    && forall j: nat :: !BlankLineAt(frame, j)
  }

  lemma FrameIsSolid(kind: string, json: string)
    requires CleanKind(kind) && ObjectText(json)
    ensures Solid(Frame(kind, json))
  {
    var f := Frame(kind, json);
    var n := 7 + |kind|;
    assert forall j :: 0 <= j < 7 ==> f[j] == EVENT_FIELD[j];
    assert forall j :: 7 <= j < n ==> f[j] == kind[j - 7];
    assert f[n] == '\n' && f[n + 1] == 'd';
    assert forall j :: n < j < n + 7 ==> f[j] == DATA_FIELD[j - n - 1];
    assert forall j :: n + 7 <= j < |f| ==> f[j] == json[j - n - 7];
    assert forall j :: 0 <= j < |f| && f[j] == '\n' ==> j == n;
  }

  lemma SolidFrameIsRead(frame: string, rest: string, sofar: seq<Event>, parse: FrameParser)
    requires Solid(frame)
    ensures Read(frame + "\n\n" + rest, sofar, parse) == Read(rest, sofar + parse(frame), parse)
  {
    var s := frame + "\n\n" + rest;
    assert forall j :: 0 <= j < |frame| ==> s[j] == frame[j];
    assert s[|frame|] == '\n' && s[|frame| + 1] == '\n';
    forall j: nat | j < |frame| ensures !BlankLineAt(s, j) {
      assert !BlankLineAt(frame, j);
    }
    FirstBlankLineIsUnique(s, |frame|);
    assert s[..|frame|] == frame && s[|frame| + 2..] == rest;
  }

  lemma {:induction false} SolidFramesAreRead(frames: seq<string>, es: seq<Event>, sofar: seq<Event>,
                                              parse: FrameParser)
    requires |frames| == |es|
    requires forall i :: 0 <= i < |frames| ==> Solid(frames[i]) && parse(frames[i]) == [es[i]]
    ensures Read(Join(frames), sofar, parse) == (sofar + es, "")
    decreases |frames|
  {
    if frames == [] {
      assert sofar + es == sofar;
    } else {
      SolidFrameIsRead(frames[0], Join(frames[1..]), sofar, parse);
      SolidFramesAreRead(frames[1..], es[1..], sofar + [es[0]], parse);
      assert sofar + es == (sofar + [es[0]]) + es[1..];
    }
  }

  /**
   Round trip, for every event list and every chunking: the reader returns exactly the printed
   events and an empty buffer if and only if every kind is one line without surrounding whitespace.
   */
  lemma RoundTrip(es: seq<Event>, chunks: seq<string>, isJson: string -> bool)
    requires forall e :: e in es ==> e.data.Decoded? && ObjectText(e.data.json) && isJson(e.data.json)
    requires Concat(chunks) == Print(es)
    ensures Read(Concat(chunks), [], Parser(isJson)) == (es, "") <==> forall e :: e in es ==> CleanKind(e.kind)
  {
    if forall e :: e in es ==> CleanKind(e.kind) {
      var frames := Frames(es);
      forall i | 0 <= i < |es| ensures Solid(frames[i]) && ParseFrame(frames[i], isJson) == [es[i]] {
        assert es[i] in es;
        FrameIsSolid(es[i].kind, es[i].data.json);
        FrameParses(es[i].kind, es[i].data.json, isJson);
      }
      SolidFramesAreRead(frames, es, [], Parser(isJson));
      assert [] + es == es;
    } else {
      forall f: string, e | e in ParseFrame(f, isJson) ensures CleanKind(e.kind) {
        ParsedFrameIsClean(f, isJson);
      }
      ReadKindsAreClean(Print(es), [], Parser(isJson));
    }
  }
}
