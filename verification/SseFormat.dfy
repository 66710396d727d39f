/** plugins/sse/src/format.ts: events as `text/event-stream` frames, and the client's parser of
    section 9.2.6 of the WHATWG HTML Standard. */
module SseFormat {
  import opened Text
  import opened Wrappers

  /** A reconnection hint: only a non-negative integer reaches the wire. */
  datatype Retry = Whole(ms: nat) | Unusable

  datatype SseEvent = SseEvent(data: string, event: Option<string>, id: Option<string>, retry: Option<Retry>)

  predicate IsBreak(c: char) {
    c == '\r' || c == '\n'
  }

  /** `value.replace(/[\r\n\0]/g, "")`. */
  function OneLine(value: string): (r: string)
    ensures forall i :: 0 <= i < |r| ==> !IsBreak(r[i]) && r[i] != '\0'
  {
    if value == "" then ""
    else (if IsBreak(value[0]) || value[0] == '\0' then "" else [value[0]]) + OneLine(value[1..])
  }

  /** What it removes is CR, LF and NUL, wherever they stand, and nothing else. */
  lemma {:induction false} OneLineExact(a: string, b: string, c: char)
    ensures OneLine(a + b) == OneLine(a) + OneLine(b)
    ensures OneLine([c]) == if c in "\r\n\0" then "" else [c]
  {
    assert [c][1..] == "";
    if a == "" {
      assert a + b == b;
    } else {
      assert (a + b)[1..] == a[1..] + b;
      OneLineExact(a[1..], b, c);
    }
  }

  /** Where the line that starts at the front of `s` ends: the first break, or |s|. */
  function LineEnd(s: string): (n: nat)
    ensures n <= |s|
    ensures n < |s| ==> IsBreak(s[n])
    ensures forall i :: 0 <= i < n ==> !IsBreak(s[i])
  {
    if s == "" || IsBreak(s[0]) then 0 else 1 + LineEnd(s[1..])
  }

  /** How long the break at `n` is: CRLF counts as one. */
  function BreakLength(s: string, n: nat): (k: nat)
    requires n < |s|
    ensures 1 <= k && n + k <= |s|
  {
    if s[n] == '\r' && n + 1 < |s| && s[n + 1] == '\n' then 2 else 1
  }

  /** `data.split(/\r\n|\r|\n/)`. */
  function SplitLines(s: string): (r: seq<string>)
    ensures |r| >= 1
    ensures forall i :: 0 <= i < |r| ==> NoBreak(r[i])
    decreases |s|
  {
    var n := LineEnd(s);
    if n == |s| then [s] else [s[..n]] + SplitLines(s[n + BreakLength(s, n)..])
  }

  predicate NoBreak(s: string) {
    forall i :: 0 <= i < |s| ==> !IsBreak(s[i])
  }

  /** A field as the formatter writes it: `name: value` on a line of its own. */
  datatype Field = Field(name: string, value: string)

  function LineOf(f: Field): string {
    f.name + ": " + f.value + "\n"
  }

  function TextOf(fields: seq<Field>): string {
    if fields == [] then "" else LineOf(fields[0]) + TextOf(fields[1..])
  }

  function DataFields(lines: seq<string>): seq<Field> {
    if lines == [] then [] else [Field("data", lines[0])] + DataFields(lines[1..])
  }

  function IdField(e: SseEvent): seq<Field> {
    if e.id.Some? then [Field("id", OneLine(e.id.value))] else []
  }

  function EventField(e: SseEvent): seq<Field> {
    if e.event.Some? then [Field("event", OneLine(e.event.value))] else []
  }

  function RetryField(e: SseEvent): seq<Field> {
    if e.retry.Some? && e.retry.value.Whole? then [Field("retry", Decimal(e.retry.value.ms))] else []
  }

  function FieldsOf(e: SseEvent): seq<Field> {
    IdField(e) + EventField(e) + RetryField(e) + DataFields(SplitLines(e.data))
  }

  /** An event as a frame; a blank line ends it. */
  function Frame(e: SseEvent): string {
    TextOf(FieldsOf(e)) + "\n"
  }

  lemma {:induction false} TextConcat(a: seq<Field>, b: seq<Field>)
    ensures TextOf(a + b) == TextOf(a) + TextOf(b)
  {
    if a == [] {
      assert a + b == b && "" + TextOf(b) == TextOf(b);
    } else {
      assert (a + b)[1..] == a[1..] + b;
      TextConcat(a[1..], b);
      assert LineOf(a[0]) + (TextOf(a[1..]) + TextOf(b)) == LineOf(a[0]) + TextOf(a[1..]) + TextOf(b);
    }
  }

  lemma TextSnoc(fields: seq<Field>, f: Field)
    ensures TextOf(fields + [f]) == TextOf(fields) + LineOf(f)
  {
    TextConcat(fields, [f]);
    assert [f][1..] == [] && LineOf(f) + "" == LineOf(f);
  }

  lemma {:induction false} DataFieldsSnoc(lines: seq<string>, line: string)
    ensures DataFields(lines + [line]) == DataFields(lines) + [Field("data", line)]
  {
    if lines == [] {
      assert lines + [line] == [line] && [line][1..] == [];
    } else {
      assert (lines + [line])[1..] == lines[1..] + [line];
      DataFieldsSnoc(lines[1..], line);
    }
  }

  /** Adds one field to a frame under construction. */
  lemma Grows(frame: string, fields: seq<Field>, f: Field)
    requires frame == TextOf(fields)
    ensures frame + LineOf(f) == TextOf(fields + [f])
  {
    TextSnoc(fields, f);
  }

  method FormatEvent(e: SseEvent) returns (frame: string)
    ensures frame == Frame(e)
  {
    hide Decimal, OneLine, SplitLines;
    frame := "";
    ghost var fields: seq<Field> := [];
    if e.id.Some? {
      var f := Field("id", OneLine(e.id.value));
      Grows(frame, fields, f);
      frame, fields := frame + LineOf(f), fields + [f];
    }
    assert fields == IdField(e);
    if e.event.Some? {
      var f := Field("event", OneLine(e.event.value));
      Grows(frame, fields, f);
      frame, fields := frame + LineOf(f), fields + [f];
    }
    assert fields == IdField(e) + EventField(e);
    if e.retry.Some? && e.retry.value.Whole? {
      var f := Field("retry", Decimal(e.retry.value.ms));
      Grows(frame, fields, f);
      frame, fields := frame + LineOf(f), fields + [f];
    }
    assert fields == IdField(e) + EventField(e) + RetryField(e);
    var text := FormatData(SplitLines(e.data));
    TextConcat(fields, DataFields(SplitLines(e.data)));
    assert FieldsOf(e) == fields + DataFields(SplitLines(e.data));
    frame := frame + text + "\n";
  }

  /** The loop over the data's lines. */
  method FormatData(lines: seq<string>) returns (text: string)
    ensures text == TextOf(DataFields(lines))
  {
    text := "";
    for i := 0 to |lines|
      invariant text == TextOf(DataFields(lines[..i]))
    {
      var f := Field("data", lines[i]);
      DataFieldsSnoc(lines[..i], lines[i]);
      assert lines[..i + 1] == lines[..i] + [lines[i]];
      Grows(text, DataFields(lines[..i]), f);
      text := text + LineOf(f);
    }
    assert lines[..|lines|] == lines;
  }

  // ----- The client -----

  /** An event as the client dispatches it. */
  datatype Received = Received(eventType: string, data: string, lastEventId: string)

  /** The client's buffers, the events dispatched so far, and the reconnection time it was told. */
  datatype Client = Client(
    dispatched: seq<Received>,
    data: string,
    eventType: string,
    lastEventId: string,
    retry: Option<nat>
  )

  predicate AllDecimal(s: string) {
    s != "" && forall i :: 0 <= i < |s| ==> '0' <= s[i] <= '9'
  }

  function SetField(c: Client, name: string, value: string): Client {
    if name == "event" then c.(eventType := value)
    else if name == "data" then c.(data := c.data + value + "\n")
    else if name == "id" then (if '\0' in value then c else c.(lastEventId := value))
    else if name == "retry" then (if AllDecimal(value) then c.(retry := Some(DecimalValue(value))) else c)
    else c
  }

  function Dispatch(c: Client): Client {
    if c.data == "" then c.(eventType := "")
    else
      var data := if c.data[|c.data| - 1] == '\n' then c.data[..|c.data| - 1] else c.data;
      var eventType := if c.eventType == "" then "message" else c.eventType;
      c.(dispatched := c.dispatched + [Received(eventType, data, c.lastEventId)], data := "", eventType := "")
  }

  /** The place of the first colon, or |s|. */
  function Colon(s: string): (n: nat)
    ensures n <= |s|
    ensures n < |s| ==> s[n] == ':'
    ensures forall i :: 0 <= i < n ==> s[i] != ':'
  {
    if s == "" || s[0] == ':' then 0 else 1 + Colon(s[1..])
  }

  function TakeLine(c: Client, line: string): Client {
    if line == "" then Dispatch(c)
    else
      var n := Colon(line);
      if n == 0 then c
      else if n == |line| then SetField(c, line, "")
      else
        var value := line[n + 1..];
        SetField(c, line[..n], if value != "" && value[0] == ' ' then value[1..] else value)
  }

  /** Reads a stream; a last line without its break is not processed. */
  function Parse(c: Client, stream: string): Client
    decreases |stream|
  {
    var n := LineEnd(stream);
    if n == |stream| then c else Parse(TakeLine(c, stream[..n]), stream[n + BreakLength(stream, n)..])
  }

  // ----- Frames read back -----

  /** The data with its line breaks normalised to LF. */
  function Normalised(lines: seq<string>): string {
    if lines == [] then ""
    else if |lines| == 1 then lines[0]
    else lines[0] + "\n" + Normalised(lines[1..])
  }

  /** One line and its LF are taken as one line. */
  lemma ParseLine(c: Client, line: string, rest: string)
    requires NoBreak(line)
    ensures Parse(c, line + "\n" + rest) == Parse(TakeLine(c, line), rest)
  {
    var s := line + "\n" + rest;
    assert s[|line|] == '\n';
    assert forall i :: 0 <= i < |line| ==> s[i] == line[i];
    assert LineEnd(s) == |line|;
    assert s[..|line|] == line && s[|line| + 1..] == rest;
  }

  lemma ColonAfter(name: string, value: string)
    requires ':' !in name
    ensures Colon(name + ": " + value) == |name|
  {
    var s := name + ": " + value;
    assert s[|name|] == ':';
    assert forall i :: 0 <= i < |name| ==> s[i] == name[i] && name[i] in name;
  }

  /** A field line written by the formatter sets that field to exactly that value. */
  lemma TakeField(c: Client, name: string, value: string)
    requires ':' !in name && name != ""
    ensures TakeLine(c, name + ": " + value) == SetField(c, name, value)
  {
    var line := name + ": " + value;
    ColonAfter(name, value);
    assert line[..|name|] == name;
    assert line[|name| + 1..] == " " + value && (" " + value)[1..] == value;
  }

  predicate WellFormed(f: Field) {
    f.name != "" && ':' !in f.name && NoBreak(f.name) && NoBreak(f.value)
  }

  lemma ParseField(c: Client, f: Field, rest: string)
    requires WellFormed(f)
    ensures Parse(c, LineOf(f) + rest) == Parse(SetField(c, f.name, f.value), rest)
  {
    ParseLine(c, f.name + ": " + f.value, rest);
    TakeField(c, f.name, f.value);
  }

  function SetAll(c: Client, fields: seq<Field>): Client
    decreases |fields|
  {
    if fields == [] then c else SetAll(SetField(c, fields[0].name, fields[0].value), fields[1..])
  }

  /** Reading fields sets them, in order, whatever follows. */
  lemma {:induction false} ParseFields(c: Client, fields: seq<Field>, rest: string)
    requires AllWellFormed(fields)
    ensures Parse(c, TextOf(fields) + rest) == Parse(SetAll(c, fields), rest)
    decreases |fields|
  {
    if fields == [] {
      assert "" + rest == rest;
    } else {
      var tail := TextOf(fields[1..]) + rest;
      assert TextOf(fields) + rest == LineOf(fields[0]) + tail;
      ParseField(c, fields[0], tail);
      ParseFields(SetField(c, fields[0].name, fields[0].value), fields[1..], rest);
    }
  }

  lemma {:induction false} SetConcat(c: Client, a: seq<Field>, b: seq<Field>)
    ensures SetAll(c, a + b) == SetAll(SetAll(c, a), b)
    decreases |a|
  {
    if a == [] {
      assert a + b == b;
    } else {
      assert (a + b)[1..] == a[1..] + b;
      SetConcat(SetField(c, a[0].name, a[0].value), a[1..], b);
    }
  }

  /** What the header fields of a frame do to the client's buffers. */
  function AfterHeader(c: Client, e: SseEvent): Client {
    Client(c.dispatched, c.data,
           if e.event.Some? then OneLine(e.event.value) else c.eventType,
           if e.id.Some? then OneLine(e.id.value) else c.lastEventId,
           if e.retry.Some? && e.retry.value.Whole? then Some(e.retry.value.ms) else c.retry)
  }

  lemma SetOne(c: Client, f: Field)
    ensures SetAll(c, [f]) == SetField(c, f.name, f.value) && SetAll(c, []) == c
  {
    assert [f][1..] == [];
  }

  lemma SetId(c: Client, e: SseEvent)
    ensures SetAll(c, IdField(e)) == if e.id.Some? then c.(lastEventId := OneLine(e.id.value)) else c
  {
    if e.id.Some? {
      SetOne(c, Field("id", OneLine(e.id.value)));
    }
  }

  lemma SetEvent(c: Client, e: SseEvent)
    ensures SetAll(c, EventField(e)) == if e.event.Some? then c.(eventType := OneLine(e.event.value)) else c
  {
    if e.event.Some? {
      SetOne(c, Field("event", OneLine(e.event.value)));
    }
  }

  lemma SetRetry(c: Client, e: SseEvent)
    ensures SetAll(c, RetryField(e))
         == if e.retry.Some? && e.retry.value.Whole? then c.(retry := Some(e.retry.value.ms)) else c
  {
    hide Decimal, DecimalValue;
    if e.retry.Some? && e.retry.value.Whole? {
      SetOne(c, Field("retry", Decimal(e.retry.value.ms)));
      DecimalRoundTrip(e.retry.value.ms);
    }
  }

  lemma SetThree(c: Client, c1: Client, c2: Client, c3: Client, a: seq<Field>, b: seq<Field>, d: seq<Field>)
    requires SetAll(c, a) == c1 && SetAll(c1, b) == c2 && SetAll(c2, d) == c3
    ensures SetAll(c, a + b + d) == c3
  {
    SetConcat(c, a + b, d);
    SetConcat(c, a, b);
  }

  lemma SetHeader(c: Client, e: SseEvent)
    ensures SetAll(c, IdField(e) + EventField(e) + RetryField(e)) == AfterHeader(c, e)
  {
    var c1 := SetAll(c, IdField(e));
    var c2 := SetAll(c1, EventField(e));
    SetThree(c, c1, c2, SetAll(c2, RetryField(e)), IdField(e), EventField(e), RetryField(e));
    SetId(c, e);
    SetEvent(c1, e);
    SetRetry(c2, e);
  }

  lemma SetDataCons(c: Client, line: string, tail: seq<Field>)
    ensures SetAll(c, [Field("data", line)] + tail) == SetAll(c.(data := c.data + line + "\n"), tail)
  {
    assert ([Field("data", line)] + tail)[1..] == tail;
  }

  lemma {:induction false} SetData(c: Client, lines: seq<string>)
    requires lines != []
    ensures SetAll(c, DataFields(lines)) == c.(data := c.data + Normalised(lines) + "\n")
    decreases |lines|
  {
    SetDataCons(c, lines[0], DataFields(lines[1..]));
    var c1 := c.(data := c.data + lines[0] + "\n");
    if |lines| > 1 {
      SetData(c1, lines[1..]);
      assert c.data + lines[0] + "\n" + Normalised(lines[1..]) == c.data + (lines[0] + "\n" + Normalised(lines[1..]));
    }
  }

  predicate AllWellFormed(fields: seq<Field>) {
    forall i :: 0 <= i < |fields| ==> WellFormed(fields[i])
  }

  lemma {:induction false} DataFieldsWellFormed(lines: seq<string>)
    requires forall i :: 0 <= i < |lines| ==> NoBreak(lines[i])
    ensures AllWellFormed(DataFields(lines))
  {
    if lines != [] {
      DataFieldsWellFormed(lines[1..]);
      assert DataFields(lines) == [Field("data", lines[0])] + DataFields(lines[1..]);
    }
  }

  lemma WellFormedConcat(a: seq<Field>, b: seq<Field>)
    requires AllWellFormed(a) && AllWellFormed(b)
    ensures AllWellFormed(a + b)
  {
  }

  lemma HeaderWellFormed(e: SseEvent)
    ensures AllWellFormed(IdField(e)) && AllWellFormed(EventField(e)) && AllWellFormed(RetryField(e))
  {
    hide Decimal, OneLine;
  }

  lemma FieldsWellFormed(e: SseEvent)
    ensures AllWellFormed(FieldsOf(e))
  {
    hide AllWellFormed, IdField, EventField, RetryField, DataFields;
    HeaderWellFormed(e);
    DataFieldsWellFormed(SplitLines(e.data));
    WellFormedConcat(IdField(e), EventField(e));
    WellFormedConcat(IdField(e) + EventField(e), RetryField(e));
    WellFormedConcat(IdField(e) + EventField(e) + RetryField(e), DataFields(SplitLines(e.data)));
  }

  lemma NormalisedCons(line: string, lines: seq<string>)
    requires lines != []
    ensures Normalised([line] + lines) == line + "\n" + Normalised(lines)
  {
    assert ([line] + lines)[1..] == lines;
  }

  /** Newline normalisation, character by character: CRLF, a lone CR and LF each become one LF. */
  function OneBreakEach(s: string): string {
    if s == "" then ""
    else if s[0] == '\r' then "\n" + OneBreakEach(s[if |s| > 1 && s[1] == '\n' then 2 else 1..])
    else [s[0]] + OneBreakEach(s[1..])
  }

  lemma {:induction false} OneBreakEachAfter(line: string, rest: string)
    requires NoBreak(line)
    ensures OneBreakEach(line + rest) == line + OneBreakEach(rest)
  {
    if line == "" {
      assert line + rest == rest && line + OneBreakEach(rest) == OneBreakEach(rest);
    } else {
      assert (line + rest)[1..] == line[1..] + rest;
      OneBreakEachAfter(line[1..], rest);
      assert [line[0]] + (line[1..] + OneBreakEach(rest)) == line + OneBreakEach(rest);
    }
  }

  lemma CutAround(s: string, n: nat)
    requires n <= |s|
    ensures s == s[..n] + s[n..]
  {
  }

  lemma BreakIsOne(s: string, n: nat)
    requires n < |s| && IsBreak(s[n])
    ensures OneBreakEach(s[n..]) == "\n" + OneBreakEach(s[n + BreakLength(s, n)..])
  {
    var t := s[n..];
    assert t[BreakLength(s, n)..] == s[n + BreakLength(s, n)..];
  }

  lemma SplitOnce(s: string)
    ensures var n := LineEnd(s);
            SplitLines(s) == if n == |s| then [s] else [s[..n]] + SplitLines(s[n + BreakLength(s, n)..])
  {
    hide LineEnd, BreakLength, NoBreak, IsBreak;
  }

  /** Splitting into lines and joining them with LF is that normalisation, for every text. */
  lemma {:induction false} SplitNormalises(s: string)
    ensures Normalised(SplitLines(s)) == OneBreakEach(s)
    decreases |s|
  {
    hide OneBreakEach, LineEnd, SplitLines, BreakLength;
    var n := LineEnd(s);
    CutAround(s, n);
    SplitOnce(s);
    OneBreakEachAfter(s[..n], s[n..]);
    if n == |s| {
      NothingIsBroken(s[n..]);
    } else {
      var rest := s[n + BreakLength(s, n)..];
      BreakIsOne(s, n);
      SplitNormalises(rest);
      NormalisedCons(s[..n], SplitLines(rest));
    }
  }

  lemma NothingIsBroken(s: string)
    requires s == ""
    ensures OneBreakEach(s) == ""
  {
  }

  /** Normalising only touches CR: data whose only line break is LF comes back as it was. */
  lemma {:induction false} LfDataIsUnchanged(data: string)
    requires '\r' !in data
    ensures OneBreakEach(data) == data
  {
    if data != "" {
      LfDataIsUnchanged(data[1..]);
    }
  }

  /** The event a client with an id buffer should dispatch for a sent one: newlines normalised,
      the name and the id without CR, LF and NUL, and an unset or empty name read as "message". */
  function Expected(lastEventId: string, e: SseEvent): Received {
    Received(if e.event.Some? && OneLine(e.event.value) != "" then OneLine(e.event.value) else "message",
             OneBreakEach(e.data),
             if e.id.Some? then OneLine(e.id.value) else lastEventId)
  }

  /** A client between frames. */
  predicate Idle(c: Client) {
    c.data == "" && c.eventType == ""
  }

  /** Reading a frame dispatches exactly the event it was made from, and leaves the client idle. */
  lemma ParseFrame(c: Client, e: SseEvent, rest: string)
    requires Idle(c)
    ensures var c1 := AfterHeader(c, e).(dispatched := c.dispatched + [Expected(c.lastEventId, e)], eventType := "");
            Parse(c, Frame(e) + rest) == Parse(c1, rest) && Idle(c1)
  {
    hide SplitLines, OneBreakEach, Normalised, TextOf, DataFields, SetAll;
    hide AllWellFormed, IdField, EventField, RetryField;
    var lines := SplitLines(e.data);
    SplitNormalises(e.data);
    FieldsWellFormed(e);
    assert Frame(e) + rest == TextOf(FieldsOf(e)) + ("" + "\n" + rest);
    ParseFields(c, FieldsOf(e), "" + "\n" + rest);
    var full := SetAll(c, FieldsOf(e));
    assert full == AfterHeader(c, e).(data := Normalised(lines) + "\n") by {
      SetConcat(c, IdField(e) + EventField(e) + RetryField(e), DataFields(lines));
      SetHeader(c, e);
      SetData(AfterHeader(c, e), lines);
      assert "" + Normalised(lines) == Normalised(lines);
    }
    ParseLine(full, "", rest);
    assert full.data[..|full.data| - 1] == Normalised(lines);
  }

  /** A comment frame changes nothing: `text` cannot smuggle a line in. */
  lemma ParseComment(c: Client, text: string, rest: string)
    requires Idle(c)
    ensures Parse(c, ":" + OneLine(text) + "\n\n" + rest) == Parse(c, rest)
  {
    var line := ":" + OneLine(text);
    assert ":" + OneLine(text) + "\n\n" + rest == line + "\n" + ("" + "\n" + rest);
    ParseLine(c, line, "" + "\n" + rest);
    assert Colon(line) == 0;
    ParseLine(c, "", rest);
  }
}
