/** Server-sent events: the server's framing, and the client's loop that splits whatever chunks arrive. */
module EventStream {
  import opened Common
  import Json

  /** The position of the first blank-line delimiter. */
  function FirstBreak(s: string): (i: Option<nat>)
    ensures i.Some? ==> i.value + 2 <= |s| && s[i.value] == '\n' && s[i.value + 1] == '\n'
  {
    if |s| < 2 then None
    else if s[0] == '\n' && s[1] == '\n' then Some(0)
    else match FirstBreak(s[1..]) case None => None case Some(i) => Some(i + 1)
  }

  /** `s.split('\n\n')`: the delimited parts, and the remainder that the client keeps. */
  function Split(s: string): (seq<string>, string) {
    match FirstBreak(s)
    case None => ([], s)
    case Some(i) => var (parts, rest) := Split(s[i + 2..]); ([s[..i]] + parts, rest)
  }

  function FirstLine(s: string): string {
    if |s| == 0 || s[0] == '\n' then "" else [s[0]] + FirstLine(s[1..])
  }

  /** The payload of the first line of a part that starts with "data: ". */
  function Payload(part: string): (p: Option<string>)
    decreases |part|
  {
    var line := FirstLine(part);
    if "data: " <= line then Some(line[6..])
    else if |line| < |part| then Payload(part[|line| + 1..]) else None
  }

  function EventsIn<E>(parts: seq<string>, parse: string -> Option<E>): seq<E> {
    if |parts| == 0 then [] else EventsIn(parts[..|parts| - 1], parse) + EventOf(parts[|parts| - 1], parse)
  }

  function EventOf<E>(part: string, parse: string -> Option<E>): seq<E> {
    match Payload(part)
    case None => []
    case Some(text) => (match parse(text) case None => [] case Some(e) => [e])
  }

  function Concat(chunks: seq<string>): string {
    if |chunks| == 0 then "" else Concat(chunks[..|chunks| - 1]) + chunks[|chunks| - 1]
  }

  // ---- What splitting and reading a part come to ----

  function Delimited(parts: seq<string>): string {
    if |parts| == 0 then "" else parts[0] + "\n\n" + Delimited(parts[1..])
  }

  lemma {:induction false} FirstBreakFirst(s: string, k: nat)
    requires k + 2 <= |s| && s[k] == '\n' && s[k + 1] == '\n'
    ensures FirstBreak(s).Some? && FirstBreak(s).value <= k
  {
    if k > 0 { FirstBreakFirst(s[1..], k - 1); }
  }

  /**
   The parts with their delimiters and the remainder make up the text; no delimiter is left in the remainder, nor in a
   part, nor does one begin at a part's last character.
  */
  lemma {:induction false} SplitExactly(s: string)
    ensures s == Delimited(Split(s).0) + Split(s).1 && FirstBreak(Split(s).1) == None
    ensures forall p | p in Split(s).0 :: FirstBreak(p + "\n") == None
    decreases |s|
  {
    if FirstBreak(s) == None {
      SplitNowhere(s);
      assert Delimited([]) + s == s;
    } else {
      var i := FirstBreak(s).value;
      SplitAt(s, i);
      hide *;
      BreakAt(s, i);
      SplitExactly(s[i + 2..]);
      NoBreakBefore(s, i);
      var (parts, rest) := Split(s[i + 2..]);
      DelimitedCons(s[..i], parts);
      Reassembled(s, s[..i], Delimited(parts), rest);
    }
  }

  lemma Reassembled(s: string, head: string, middle: string, rest: string)
    requires s == head + "\n\n" + (middle + rest)
    ensures s == head + "\n\n" + middle + rest
  {
  }

  lemma DelimitedCons(part: string, parts: seq<string>)
    ensures Delimited([part] + parts) == part + "\n\n" + Delimited(parts)
  {
    assert ([part] + parts)[1..] == parts;
  }

  lemma BreakAt(s: string, i: nat)
    requires FirstBreak(s) == Some(i)
    ensures i + 2 <= |s| && s == s[..i] + "\n\n" + s[i + 2..]
  {
    hide FirstBreak;
    assert s[i..i + 2] == "\n\n";
    assert s == s[..i] + s[i..i + 2] + s[i + 2..];
  }

  lemma NoBreakBefore(s: string, i: nat)
    requires FirstBreak(s) == Some(i) && i < |s|
    ensures FirstBreak(s[..i] + "\n") == None
  {
    var init := s[..i] + "\n";
    if FirstBreak(init).Some? {
      var k := FirstBreak(init).value;
      assert k + 2 <= |init| && init[k] == '\n' && init[k + 1] == '\n';
      BreakAt(s, i);
      hide FirstBreak;
      assert s[k] == init[k] && s[k + 1] == init[k + 1] && k < i;
      FirstBreakFirst(s, k);
    }
  }

  lemma {:induction false} LineBefore(line: string, rest: string)
    requires OneLine(line)
    ensures FirstLine(line + "\n" + rest) == line
  {
    if |line| == 0 {
      assert line + "\n" + rest == "\n" + rest;
    } else {
      assert (line + "\n" + rest)[1..] == line[1..] + "\n" + rest;
      LineBefore(line[1..], rest);
    }
  }

  /** The payload is that of the first line that starts with "data: ", wherever it stands in the part. */
  lemma PayloadExactly(line: string, rest: string)
    requires OneLine(line)
    ensures Payload(line) == if "data: " <= line then Some(line[6..]) else None
    ensures Payload(line + "\n" + rest) == if "data: " <= line then Some(line[6..]) else Payload(rest)
  {
    LineIsFirst(line);
    LineBefore(line, rest);
    assert (line + "\n" + rest)[|line| + 1..] == rest;
  }

  /** A part whose payload does not parse yields no event. */
  lemma UnreadPart<E>(part: string, parse: string -> Option<E>)
    ensures EventOf(part, parse) ==
            if Payload(part).Some? && parse(Payload(part).value).Some? then [parse(Payload(part).value).value] else []
  {
  }

  // ---- Splitting with a carried remainder ----

  lemma {:induction false} FirstBreakExtends(a: string, b: string)
    requires FirstBreak(a).Some?
    ensures FirstBreak(a + b) == FirstBreak(a)
  {
    if !(a[0] == '\n' && a[1] == '\n') {
      FirstBreakExtends(a[1..], b);
      assert (a + b)[1..] == a[1..] + b;
    }
  }

  lemma SplitAt(s: string, i: nat)
    requires FirstBreak(s) == Some(i)
    ensures Split(s).0 == [s[..i]] + Split(s[i + 2..]).0 && Split(s).1 == Split(s[i + 2..]).1
  {
  }

  lemma SplitNowhere(s: string)
    requires FirstBreak(s) == None
    ensures Split(s) == ([], s)
  {
  }

  /** Splitting a text piecewise, carrying the remainder over, is splitting the whole. */
  lemma {:induction false} SplitCarries(a: string, b: string)
    ensures Split(a + b).0 == Split(a).0 + Split(Split(a).1 + b).0
    ensures Split(a + b).1 == Split(Split(a).1 + b).1
    decreases |a|
  {
    hide Split;
    if FirstBreak(a) == None {
      SplitNowhere(a);
    } else {
      var i := FirstBreak(a).value;
      FirstBreakExtends(a, b);
      hide FirstBreak;
      SplitAt(a, i);
      SplitAt(a + b, i);
      assert (a + b)[i + 2..] == a[i + 2..] + b && (a + b)[..i] == a[..i];
      SplitCarries(a[i + 2..], b);
    }
  }

  lemma {:induction false} EventsAppend<E>(p: seq<string>, q: seq<string>, parse: string -> Option<E>)
    ensures EventsIn(p + q, parse) == EventsIn(p, parse) + EventsIn(q, parse)
  {
    if |q| == 0 {
      assert p + q == p;
    } else {
      EventsAppend(p, q[..|q| - 1], parse);
      assert (p + q)[..|p + q| - 1] == p + q[..|q| - 1];
    }
  }

  lemma EmptySplit()
    ensures Split("") == ([], "")
  {
  }

  /** The client loop: its events are those of the whole text, however the text was cut into chunks. */
  method StreamAsk<E>(chunks: seq<string>, parse: string -> Option<E>) returns (events: seq<E>)
    ensures events == EventsIn(Split(Concat(chunks)).0, parse)
  {
    hide Split, EventOf;
    EmptySplit();
    events := [];
    var buffer := "";
    for k := 0 to |chunks|
      invariant events == EventsIn(Split(Concat(chunks[..k])).0, parse)
      invariant buffer == Split(Concat(chunks[..k])).1
    {
      ghost var text := Concat(chunks[..k]);
      assert chunks[..k + 1][..k] == chunks[..k];
      SplitCarries(text, chunks[k]);
      buffer := buffer + chunks[k];
      var (parts, rest) := Split(buffer);
      buffer := rest;
      EventsAppend(Split(text).0, parts, parse);
      hide EventsIn, Concat;
      var more := ReadParts(parts, parse);
      events := events + more;
    }
    assert chunks[..|chunks|] == chunks;
  }

  /** The events among the frames of one buffer. */
  method ReadParts<E>(parts: seq<string>, parse: string -> Option<E>) returns (events: seq<E>)
    ensures events == EventsIn(parts, parse)
  {
    hide EventOf;
    events := [];
    for i := 0 to |parts|
      invariant events == EventsIn(parts[..i], parse)
    {
      assert parts[..i + 1][..i] == parts[..i];
      events := events + EventOf(parts[i], parse);
    }
    assert parts[..|parts|] == parts;
  }

  // ---- The server's frames ----

  /** `f"data: {payload}\n\n"` */
  function Frame(payload: string): string {
    "data: " + payload + "\n\n"
  }

  function Frames(payloads: seq<string>): string {
    if |payloads| == 0 then "" else Frame(payloads[0]) + Frames(payloads[1..])
  }

  function Texts<E>(events: seq<E>, dump: E -> string): seq<string> {
    seq(|events|, i requires 0 <= i < |events| => dump(events[i]))
  }

  predicate OneLine(payload: string) {
    '\n' !in payload
  }

  lemma {:induction false} BreakAfterLine(line: string, rest: string)
    requires OneLine(line)
    ensures FirstBreak(line + "\n\n" + rest) == Some(|line|)
  {
    var s := line + "\n\n" + rest;
    if |line| > 0 {
      assert s[1..] == line[1..] + "\n\n" + rest;
      BreakAfterLine(line[1..], rest);
      assert s[0] == line[0];
    }
  }

  lemma {:induction false} LineIsFirst(line: string)
    requires OneLine(line)
    ensures FirstLine(line) == line
  {
    if |line| > 0 { LineIsFirst(line[1..]); }
  }

  lemma FramePayload(payload: string)
    requires OneLine(payload)
    ensures Payload("data: " + payload) == Some(payload)
  {
    LineIsFirst("data: " + payload);
  }

  /** Whole frames followed by an unfinished one: the frames' lines are the parts, the unfinished text the remainder. */
  lemma FirstFrame(payloads: seq<string>, tail: string)
    requires |payloads| > 0 && OneLine(payloads[0])
    ensures Split(Frames(payloads) + tail).0 == ["data: " + payloads[0]] + Split(Frames(payloads[1..]) + tail).0
    ensures Split(Frames(payloads) + tail).1 == Split(Frames(payloads[1..]) + tail).1
  {
    hide OneLine, Split, Frame;
    FirstFrameSplits(payloads[0], Frames(payloads[1..]) + tail);
    assert Frames(payloads) + tail == Frame(payloads[0]) + (Frames(payloads[1..]) + tail);
  }

  lemma {:induction false} FramesSplit<E>(payloads: seq<string>, tail: string, parse: string -> Option<E>)
    requires (forall p | p in payloads :: OneLine(p)) && FirstBreak(tail) == None
    requires forall p | p in payloads :: parse(p).Some?
    ensures Split(Frames(payloads) + tail).1 == tail
    ensures EventsIn(Split(Frames(payloads) + tail).0, parse) ==
            seq(|payloads|, i requires 0 <= i < |payloads| => parse(payloads[i]).value)
  {
    hide Payload, FirstLine, FirstBreak;
    if |payloads| == 0 {
      assert Frames(payloads) + tail == tail;
    } else {
      var p, rest := payloads[0], payloads[1..];
      assert p in payloads;
      hide Split, Frames, Frame, OneLine, EventsIn;
      FramesSplit(rest, tail, parse);
      FirstFrame(payloads, tail);
      OneEvent(p, parse);
      EventsAppend(["data: " + p], Split(Frames(rest) + tail).0, parse);
    }
  }

  lemma FirstFrameSplits(p: string, after: string)
    requires OneLine(p)
    ensures Split(Frame(p) + after) == (["data: " + p] + Split(after).0, Split(after).1)
  {
    var line := "data: " + p;
    var s := line + "\n\n" + after;
    assert Frame(p) + after == s;
    BreakAfterLine(line, after);
    assert s[|line| + 2..] == after && s[..|line|] == line;
  }

  lemma OneEvent<E>(p: string, parse: string -> Option<E>)
    requires OneLine(p) && parse(p).Some?
    ensures EventsIn(["data: " + p], parse) == [parse(p).value]
  {
    FramePayload(p);
    assert ["data: " + p][..0] == [];
  }

  /** A cut inside a frame, even between its two newlines, leaves no delimiter in the unfinished text. */
  lemma CutFrame(payload: string, k: nat)
    requires OneLine(payload) && k < |Frame(payload)|
    ensures FirstBreak(Frame(payload)[..k]) == None
  {
  }

  /**
   The stream delivers exactly the events sent, in order, under any chunking; and when the text stops short inside
   a frame, exactly those whose frames have fully arrived.
  */
  lemma StreamRoundTrip<E>(events: seq<E>, dump: E -> string, parse: string -> Option<E>, next: E, k: nat,
                           chunks: seq<string>)
    requires forall e :: OneLine(dump(e)) && parse(dump(e)) == Some(e)
    requires k < |Frame(dump(next))|
    requires Concat(chunks) == Frames(Texts(events, dump)) + Frame(dump(next))[..k]
    ensures EventsIn(Split(Concat(chunks)).0, parse) == events
  {
    var payloads := Texts(events, dump);
    CutFrame(dump(next), k);
    FramesSplit(payloads, Frame(dump(next))[..k], parse);
  }

  /** The same for the JSON values that the server sends and a reader that inverts its writer. */
  lemma JsonStreamRoundTrip(events: seq<Json.Json>, next: Json.Json, k: nat, chunks: seq<string>)
    requires k < |Frame(Json.Dumps(next))|
    requires Concat(chunks) == Frames(Texts(events, Json.Dumps)) + Frame(Json.Dumps(next))[..k]
    ensures EventsIn(Split(Concat(chunks)).0, Json.Parse) == events
  {
    forall e ensures OneLine(Json.Dumps(e)) && Json.Parse(Json.Dumps(e)) == Some(e) {
      Json.PutPrintable(" ", e, "");
      Json.ParseDumps(e);
    }
    hide *;
    StreamRoundTrip(events, Json.Dumps, Json.Parse, next, k, chunks);
  }
}
