/**
 * The incremental line reader of streamChat (frontend/src/lib/models/chat.ts).
 * However the network cuts the response text, the handlers see the calls that
 * the uncut text calls for.
 */
module ChatStream {
  import opened Basics

  /** What JSON.parse makes of a payload, as far as the dispatcher looks at it. */
  datatype Json =
    | Malformed
    | Null
    | Delta(text: string, thinking: string)
    | Failure(message: string)
    | Other

  datatype Call = OnDelta(text: string) | OnThinking(text: string) | OnDone

  /** How the promise settles: fulfilled, or rejected by an error event, a broken connection, or a null event. */
  datatype Outcome = Fulfilled | ChatError(message: string) | ReadRejected | TypeError

  /** The effect of one line: nothing, a handler call, or an exception that ends the stream. */
  datatype Effect = Skip | Emit(call: Call) | Throw(outcome: Outcome)

  // ---------- one line ----------

  predicate IsSpace(c: char) {
    c == ' ' || c == '\t' || c == '\n' || c == '\r' || c == '\U{B}' || c == '\U{C}' || c == '\U{A0}'
    || c == '\U{1680}' || '\U{2000}' <= c <= '\U{200A}' || c == '\U{2028}' || c == '\U{2029}'
    || c == '\U{202F}' || c == '\U{205F}' || c == '\U{3000}' || c == '\U{FEFF}'
  }

  function TrimStart(s: string): string {
    if s != [] && IsSpace(s[0]) then TrimStart(s[1..]) else s
  }

  function TrimEnd(s: string): string {
    if s != [] && IsSpace(s[|s| - 1]) then TrimEnd(s[..|s| - 1]) else s
  }

  /** White space gone from both ends. */
  function Trim(s: string): string {
    TrimEnd(TrimStart(s))
  }

  function Dispatch(event: Json): Effect {
    match event
    case Malformed => Skip
    case Null => Throw(TypeError)
    case Delta(text, thinking) =>
      if text != "" then Emit(OnDelta(text)) else if thinking != "" then Emit(OnThinking(thinking)) else Skip
    case Failure(message) => Throw(ChatError(message))
    case Other => Skip
  }

  function HandleLine(parse: string -> Json, raw: string): Effect {
    var line := Trim(raw);
    if !("data:" <= line) then Skip
    else
      var payload := Trim(line[5..]);
      if payload == "" || payload == "[DONE]" then Skip else Dispatch(parse(payload))
  }

  // ---------- the uncut text ----------

  /** The newline-terminated lines of a text, without their newlines. */
  function Lines(text: string): seq<string> {
    LinesFrom("", text)
  }

  function LinesFrom(line: string, text: string): seq<string>
    decreases |text|
  {
    if text == [] then []
    else if text[0] == '\n' then [line] + LinesFrom("", text[1..])
    else LinesFrom(line + [text[0]], text[1..])
  }

  /** What is left after the last newline. */
  function Tail(text: string): string {
    TailFrom("", text)
  }

  function TailFrom(line: string, text: string): string
    decreases |text|
  {
    if text == [] then line else TailFrom(if text[0] == '\n' then "" else line + [text[0]], text[1..])
  }

  datatype Run = Run(calls: seq<Call>, thrown: Option<Outcome>)

  /** The lines in order, up to and without the first that throws. */
  function HandleLines(parse: string -> Json, lines: seq<string>): Run {
    if lines == [] then Run([], None)
    else match HandleLine(parse, lines[0])
      case Throw(outcome) => Run([], Some(outcome))
      case Skip => HandleLines(parse, lines[1..])
      case Emit(call) =>
        var rest := HandleLines(parse, lines[1..]);
        rest.(calls := [call] + rest.calls)
  }

  /** Handler calls and outcome for a whole response; `broken` is a connection that fails at its end. */
  function Response(parse: string -> Json, text: string, broken: bool): (seq<Call>, Outcome) {
    var run := HandleLines(parse, Lines(text));
    if run.thrown.Some? then (run.calls, run.thrown.value)
    else if broken then (run.calls, ReadRejected)
    else (run.calls + [OnDone], Fulfilled)
  }

  // ---------- lines ----------

  lemma {:induction false} LinesAppend(line: string, a: string, b: string)
    ensures LinesFrom(line, a + b) == LinesFrom(line, a) + LinesFrom(TailFrom(line, a), b)
    ensures TailFrom(line, a + b) == TailFrom(TailFrom(line, a), b)
    decreases |a|
  {
    if a == [] {
      assert a + b == b;
    } else {
      assert (a + b)[1..] == a[1..] + b;
      LinesAppend(if a[0] == '\n' then "" else line + [a[0]], a[1..], b);
    }
  }

  lemma {:induction false} CleanFrom(line: string, text: string)
    requires '\n' !in text
    ensures LinesFrom(line, text) == [] && TailFrom(line, text) == line + text
    decreases |text|
  {
    if text != [] {
      CleanFrom(line + [text[0]], text[1..]);
      assert line + text == line + [text[0]] + text[1..];
    }
  }

  /** A text that starts with a clean `line` goes on as if `line` had been read already. */
  lemma FromClean(line: string, text: string)
    requires '\n' !in line
    ensures Lines(line + text) == LinesFrom(line, text) && Tail(line + text) == TailFrom(line, text)
  {
    LinesAppend("", line, text);
    CleanFrom("", line);
    assert "" + line == line;
  }

  lemma FirstLine(text: string, k: nat)
    requires k < |text| && text[k] == '\n' && '\n' !in text[..k]
    ensures Lines(text) == [text[..k]] + Lines(text[k + 1..]) && Tail(text) == Tail(text[k + 1..])
  {
    assert text == text[..k] + text[k..];
    FromClean(text[..k], text[k..]);
    assert text[k..][1..] == text[k + 1..];
  }

  lemma {:induction false} TailClean(line: string, text: string)
    requires '\n' !in line
    ensures '\n' !in TailFrom(line, text)
    ensures forall l :: l in LinesFrom(line, text) ==> '\n' !in l
    decreases |text|
  {
    if text != [] {
      TailClean(if text[0] == '\n' then "" else line + [text[0]], text[1..]);
    }
  }

  /** Every line followed by its newline. */
  function Unlines(lines: seq<string>): string {
    if lines == [] then "" else lines[0] + "\n" + Unlines(lines[1..])
  }

  ghost predicate Splits(text: string, lines: seq<string>, tail: string) {
    && (forall i :: 0 <= i < |lines| ==> '\n' !in lines[i])
    && '\n' !in tail
    && Unlines(lines) + tail == text
  }

  lemma {:induction false} SplitsUnique(text: string, lines: seq<string>, tail: string)
    requires Splits(text, lines, tail)
    ensures lines == Lines(text) && tail == Tail(text)
    decreases |lines|
  {
    if lines == [] {
      assert text == tail;
      CleanFrom("", text);
      assert "" + text == text;
    } else {
      var k := |lines[0]|;
      var rest := Unlines(lines[1..]) + tail;
      assert text == lines[0] + "\n" + rest;
      assert text[..k] == lines[0] && text[k] == '\n' && text[k + 1..] == rest;
      FirstLine(text, k);
      SplitsUnique(rest, lines[1..], tail);
    }
  }

  lemma {:induction false} LinesSplit(line: string, text: string)
    ensures LinesFrom(line, text) == [] ==> TailFrom(line, text) == line + text
    ensures Unlines(LinesFrom(line, text)) + TailFrom(line, text) == line + text
    decreases |text|
  {
    if text == [] {
      assert "" + line == line + text;
    } else if text[0] == '\n' {
      LinesSplit("", text[1..]);
      var rest, tail := LinesFrom("", text[1..]), TailFrom("", text[1..]);
      assert ([line] + rest)[1..] == rest;
      assert line + "\n" + Unlines(rest) + tail == line + ("\n" + (Unlines(rest) + tail));
      assert text == "\n" + ("" + text[1..]);
    } else {
      LinesSplit(line + [text[0]], text[1..]);
      assert line + text == line + [text[0]] + text[1..];
    }
  }

  /** The lines and the tail are the only way to cut a text at its newlines. */
  lemma LinesExact(text: string, lines: seq<string>, tail: string)
    ensures Splits(text, lines, tail) <==> lines == Lines(text) && tail == Tail(text)
  {
    if Splits(text, lines, tail) {
      SplitsUnique(text, lines, tail);
    }
    TailClean("", text);
    LinesSplit("", text);
    assert "" + text == text;
  }

  lemma {:induction false} HandleMore(parse: string -> Json, a: seq<string>, b: seq<string>)
    ensures var ra, rb := HandleLines(parse, a), HandleLines(parse, b);
      HandleLines(parse, a + b) == if ra.thrown.Some? then ra else Run(ra.calls + rb.calls, rb.thrown)
    decreases |a|
  {
    hide HandleLine;
    if a == [] {
      assert a + b == b;
      assert [] + HandleLines(parse, b).calls == HandleLines(parse, b).calls;
    } else {
      assert (a + b)[1..] == a[1..] + b;
      HandleMore(parse, a[1..], b);
      if HandleLine(parse, a[0]).Emit? {
        var call, ra, rb := HandleLine(parse, a[0]).call, HandleLines(parse, a[1..]), HandleLines(parse, b);
        assert [call] + (ra.calls + rb.calls) == [call] + ra.calls + rb.calls;
      }
    }
  }

  /** A line that throws settles the whole response: nothing after it counts. */
  lemma ThrownEarly(parse: string -> Json, chunks: seq<string>, n: nat, lines: seq<string>, rest: seq<string>, broken: bool)
    requires n <= |chunks| && Lines(Flatten(chunks[..n])) == lines + rest
    requires HandleLines(parse, lines).thrown.Some?
    ensures Response(parse, Flatten(chunks), broken)
         == (HandleLines(parse, lines).calls, HandleLines(parse, lines).thrown.value)
  {
    hide HandleLines, Flatten, LinesFrom, TailFrom;
    assert chunks == chunks[..n] + chunks[n..];
    FlattenAppend(chunks[..n], chunks[n..]);
    var text, more := Flatten(chunks[..n]), Flatten(chunks[n..]);
    LinesAppend("", text, more);
    var after := LinesFrom(Tail(text), more);
    assert lines + rest + after == lines + (rest + after);
    HandleMore(parse, lines, rest + after);
  }

  lemma OneLine(parse: string -> Json, raw: string)
    ensures HandleLines(parse, [raw]) == match HandleLine(parse, raw)
      case Throw(outcome) => Run([], Some(outcome))
      case Skip => Run([], None)
      case Emit(call) => Run([call], None)
  {
    hide HandleLine;
    assert [raw][1..] == [];
    if HandleLine(parse, raw).Emit? {
      assert [HandleLine(parse, raw).call] + [] == [HandleLine(parse, raw).call];
    }
  }

  // ---------- the reader ----------

  /** The position of the first newline, or -1. */
  method IndexOfNewline(s: string) returns (i: int)
    ensures i == -1 ==> '\n' !in s
    ensures i != -1 ==> 0 <= i < |s| && s[i] == '\n' && '\n' !in s[..i]
  {
    for k := 0 to |s|
      invariant '\n' !in s[..k]
    {
      if s[k] == '\n' {
        return k;
      }
    }
    assert s[..|s|] == s;
    return -1;
  }

  /** The body of the inner loop, for the line before the boundary: what it calls, or what it throws. */
  method DispatchLine(parse: string -> Json, raw: string, calls: seq<Call>) returns (after: seq<Call>, thrown: Option<Outcome>)
    ensures match HandleLine(parse, raw)
      case Skip => after == calls && thrown == None
      case Emit(call) => after == calls + [call] && thrown == None
      case Throw(outcome) => after == calls && thrown == Some(outcome)
  {
    after, thrown := calls, None;
    var line := Trim(raw);
    if !("data:" <= line) {
      return;
    }
    var payload := Trim(line[5..]);
    if payload == "" || payload == "[DONE]" {
      return;
    }
    match parse(payload) {
      case Malformed =>
      case Null => thrown := Some(TypeError);
      case Delta(text, thinking) =>
        if text != "" {
          after := after + [OnDelta(text)];
        } else if thinking != "" {
          after := after + [OnThinking(thinking)];
        }
      case Failure(message) => thrown := Some(ChatError(message));
      case Other =>
    }
  }

  /** One turn of the inner loop, on the lines `seen` so far and the buffer they left. */
  lemma OneTurn(parse: string -> Json, seen: seq<string>, buffer: string, boundary: nat)
    requires boundary < |buffer| && buffer[boundary] == '\n' && '\n' !in buffer[..boundary]
    requires HandleLines(parse, seen).thrown.None?
    ensures var raw, rest := buffer[..boundary], buffer[boundary + 1..];
      && seen + Lines(buffer) == seen + [raw] + Lines(rest) && Tail(buffer) == Tail(rest)
      && HandleLines(parse, seen + [raw]) == match HandleLine(parse, raw)
        case Throw(outcome) => Run(HandleLines(parse, seen).calls, Some(outcome))
        case Skip => HandleLines(parse, seen)
        case Emit(call) => Run(HandleLines(parse, seen).calls + [call], None)
  {
    hide HandleLine, HandleLines, LinesFrom, TailFrom;
    FirstLine(buffer, boundary);
    var rest := Lines(buffer[boundary + 1..]);
    assert seen + ([buffer[..boundary]] + rest) == seen + [buffer[..boundary]] + rest;
    HandleMore(parse, seen, [buffer[..boundary]]);
    OneLine(parse, buffer[..boundary]);
    var calls := HandleLines(parse, seen).calls;
    assert calls + [] == calls;
  }

  /** The inner loop: dispatches the complete lines of the buffer and returns what is left of it. */
  method ReadLines(parse: string -> Json, input: string, before: seq<Call>, ghost past: seq<string>)
    returns (buffer: string, calls: seq<Call>, thrown: Option<Outcome>)
    requires HandleLines(parse, past) == Run(before, None)
    ensures HandleLines(parse, past + Lines(input)) == Run(calls, thrown)
    ensures thrown.None? ==> '\n' !in buffer && buffer == Tail(input)
  {
    hide HandleLine, HandleLines, LinesFrom, TailFrom;
    buffer, calls := input, before;
    ghost var seen := past;
    var boundary := IndexOfNewline(buffer);
    while boundary != -1
      invariant boundary == -1 ==> '\n' !in buffer
      invariant boundary != -1 ==> 0 <= boundary < |buffer| && buffer[boundary] == '\n' && '\n' !in buffer[..boundary]
      invariant seen + Lines(buffer) == past + Lines(input) && Tail(buffer) == Tail(input)
      invariant HandleLines(parse, seen) == Run(calls, None)
      decreases |buffer|
    {
      OneTurn(parse, seen, buffer, boundary);
      var raw := buffer[..boundary];
      buffer := buffer[boundary + 1..];
      boundary := IndexOfNewline(buffer);
      seen := seen + [raw];
      calls, thrown := DispatchLine(parse, raw, calls);
      if thrown.Some? {
        HandleMore(parse, seen, Lines(buffer));
        return;
      }
    }
    CleanFrom("", buffer);
    assert "" + buffer == buffer && seen + [] == seen;
    thrown := None;
  }

  /** A read whose lines throw settles the whole response. */
  lemma ThrownInChunk(parse: string -> Json, chunks: seq<string>, n: nat, buffer: string, broken: bool)
    requires n < |chunks| && '\n' !in buffer && buffer == Tail(Flatten(chunks[..n]))
    requires HandleLines(parse, Lines(Flatten(chunks[..n])) + Lines(buffer + chunks[n])).thrown.Some?
    ensures var run := HandleLines(parse, Lines(Flatten(chunks[..n])) + Lines(buffer + chunks[n]));
      Response(parse, Flatten(chunks), broken) == (run.calls, run.thrown.value)
  {
    hide HandleLines, Flatten, LinesFrom, TailFrom;
    OneMoreChunk(chunks, n);
    FromClean(buffer, chunks[n]);
    var lines := Lines(Flatten(chunks[..n + 1]));
    assert lines + [] == lines;
    ThrownEarly(parse, chunks, n + 1, lines, [], broken);
  }

  /**
   * streamChat from its first read on: `chunks` are the decoded reads in order.
   * The result depends on their concatenation alone, and the buffer holds no
   * newline between reads.
   */
  method StreamChat(parse: string -> Json, chunks: seq<string>, broken: bool) returns (calls: seq<Call>, outcome: Outcome)
    ensures (calls, outcome) == Response(parse, Flatten(chunks), broken)
  {
    hide HandleLine, HandleLines, LinesFrom, TailFrom, Flatten;
    calls := [];
    var buffer := "";
    NothingRead(parse, chunks);
    for n := 0 to |chunks|
      invariant '\n' !in buffer
      invariant buffer == Tail(Flatten(chunks[..n]))
      invariant HandleLines(parse, Lines(Flatten(chunks[..n]))) == Run(calls, None)
    {
      ghost var before := buffer;
      var thrown;
      buffer, calls, thrown := ReadLines(parse, buffer + chunks[n], calls, Lines(Flatten(chunks[..n])));
      if thrown.Some? {
        ThrownInChunk(parse, chunks, n, before, broken);
        return calls, thrown.value;
      }
      OneMoreChunk(chunks, n);
      FromClean(before, chunks[n]);
    }
    assert chunks[..|chunks|] == chunks;
    if broken {
      return calls, ReadRejected;
    }
    calls := calls + [OnDone];
    return calls, Fulfilled;
  }

  lemma NothingRead(parse: string -> Json, chunks: seq<string>)
    ensures Flatten(chunks[..0]) == "" && Lines("") == [] && Tail("") == "" && HandleLines(parse, []) == Run([], None)
  {
  }

  lemma OneMoreChunk(chunks: seq<string>, n: nat)
    requires n < |chunks|
    ensures var text, all := Flatten(chunks[..n]), Flatten(chunks[..n + 1]);
      Lines(all) == Lines(text) + LinesFrom(Tail(text), chunks[n]) && Tail(all) == TailFrom(Tail(text), chunks[n])
  {
    assert chunks[..n + 1] == chunks[..n] + [chunks[n]];
    FlattenAppend(chunks[..n], [chunks[n]]);
    FlattenOne(chunks[n]);
    LinesAppend("", Flatten(chunks[..n]), chunks[n]);
  }

  // ---------- what the calls mean ----------

  /** The payload of a data line that is neither empty nor the end mark. */
  function PayloadOf(raw: string): Option<string> {
    var line := Trim(raw);
    if !("data:" <= line) || Trim(line[5..]) in ["", "[DONE]"] then None else Some(Trim(line[5..]))
  }

  ghost predicate Blank(s: string) {
    forall i :: 0 <= i < |s| ==> IsSpace(s[i])
  }

  /** No white space at either end. */
  predicate Tight(s: string) {
    s != "" ==> !IsSpace(s[0]) && !IsSpace(s[|s| - 1])
  }

  lemma {:induction false} TrimStartSplits(s: string) returns (a: string)
    ensures s == a + TrimStart(s) && Blank(a) && (TrimStart(s) != "" ==> !IsSpace(TrimStart(s)[0]))
  {
    hide IsSpace;
    a := "";
    if s != [] && IsSpace(s[0]) {
      var rest := TrimStartSplits(s[1..]);
      a := [s[0]] + rest;
    }
  }

  lemma {:induction false} TrimEndSplits(s: string) returns (b: string)
    ensures s == TrimEnd(s) + b && Blank(b) && (TrimEnd(s) != "" ==> !IsSpace(TrimEnd(s)[|TrimEnd(s)| - 1]))
    ensures TrimEnd(s) <= s
  {
    hide IsSpace;
    b := "";
    if s != [] && IsSpace(s[|s| - 1]) {
      var front := TrimEndSplits(s[..|s| - 1]);
      b := front + [s[|s| - 1]];
    }
  }

  lemma TrimSplits(s: string) returns (a: string, b: string)
    ensures s == a + Trim(s) + b && Blank(a) && Blank(b) && Tight(Trim(s))
  {
    hide IsSpace;
    a := TrimStartSplits(s);
    b := TrimEndSplits(TrimStart(s));
    assert a + (Trim(s) + b) == a + Trim(s) + b;
  }

  lemma {:induction false} TrimStartOf(a: string, t: string)
    requires Blank(a) && (t == "" || !IsSpace(t[0]))
    ensures TrimStart(a + t) == t
  {
    hide IsSpace;
    if a == "" {
      assert a + t == t;
    } else {
      assert (a + t)[1..] == a[1..] + t;
      TrimStartOf(a[1..], t);
    }
  }

  lemma {:induction false} TrimEndOf(t: string, b: string)
    requires Blank(b) && (t == "" || !IsSpace(t[|t| - 1]))
    ensures TrimEnd(t + b) == t
    decreases |b|
  {
    hide IsSpace;
    if b == "" {
      assert t + b == t;
    } else {
      var front := b[..|b| - 1];
      assert (t + b)[..|t + b| - 1] == t + front;
      TrimEndOf(t, front);
    }
  }

  /** Trimming takes off exactly the white space around a text. */
  lemma TrimOf(a: string, t: string, b: string)
    requires Blank(a) && Blank(b) && Tight(t)
    ensures Trim(a + t + b) == t
  {
    hide IsSpace;
    if t == "" {
      TrimStartOf(a + b, "");
      assert a + t + b == a + b + "";
    } else {
      TrimStartOf(a, t + b);
      assert a + t + b == a + (t + b);
      TrimEndOf(t, b);
    }
  }

  ghost predicate DataLine(raw: string, p: string) {
    exists a, b, c :: Blank(a) && Blank(b) && Blank(c) && raw == a + "data:" + b + p + c
  }

  lemma PayloadFound(raw: string, p: string)
    requires PayloadOf(raw) == Some(p)
    ensures Tight(p) && DataLine(raw, p)
  {
    hide IsSpace, Trim;
    var a, c := TrimSplits(raw);
    var line := Trim(raw);
    var b, d := TrimSplits(line[5..]);
    assert line == "data:" + (b + p + d);
    assert raw == a + "data:" + b + p + (d + c);
    assert Blank(d + c);
  }

  lemma PayloadGiven(a: string, b: string, p: string, c: string)
    requires Blank(a) && Blank(b) && Blank(c) && Tight(p) && p != "" && p != "[DONE]"
    ensures PayloadOf(a + "data:" + b + p + c) == Some(p)
  {
    DIsNoSpace();
    hide IsSpace, Trim, Blank;
    var line := "data:" + b + p;
    assert a + "data:" + b + p + c == a + line + c;
    assert line[0] == 'd' && line[|line| - 1] == p[|p| - 1];
    TrimOf(a, line, c);
    assert line[5..] == b + p + "";
    NothingIsBlank();
    TrimOf(b, p, "");
  }

  /**
   * A line has the payload `p` exactly when, white space aside, it is "data:"
   * and then, after more white space or none, `p`, which is neither empty nor
   * the end mark.
   */
  lemma PayloadExact(raw: string, p: string)
    ensures PayloadOf(raw) == Some(p) <==> p != "" && p != "[DONE]" && Tight(p) && DataLine(raw, p)
  {
    hide IsSpace, Trim, Tight, Blank;
    if PayloadOf(raw) == Some(p) {
      PayloadFound(raw, p);
    }
    if p != "" && p != "[DONE]" && Tight(p) && DataLine(raw, p) {
      var a, b, c :| Blank(a) && Blank(b) && Blank(c) && raw == a + "data:" + b + p + c;
      PayloadGiven(a, b, p, c);
    }
  }

  lemma NothingIsBlank()
    ensures Blank("")
  {
  }

  lemma DIsNoSpace()
    ensures !IsSpace('d')
  {
  }

  /** A data line whose payload is an error event. */
  predicate ErrorLine(parse: string -> Json, raw: string) {
    PayloadOf(raw).Some? && parse(PayloadOf(raw).value).Failure?
  }

  /** A data line whose payload is the JSON value null. */
  predicate NullLine(parse: string -> Json, raw: string) {
    PayloadOf(raw).Some? && parse(PayloadOf(raw).value).Null?
  }

  lemma ThrowsExact(parse: string -> Json, raw: string)
    ensures HandleLine(parse, raw).Throw? <==> ErrorLine(parse, raw) || NullLine(parse, raw)
    ensures ErrorLine(parse, raw) ==>
      HandleLine(parse, raw) == Throw(ChatError(parse(PayloadOf(raw).value).message))
    ensures NullLine(parse, raw) ==> HandleLine(parse, raw) == Throw(TypeError)
    ensures HandleLine(parse, raw).Emit? ==> HandleLine(parse, raw).call != OnDone
    ensures HandleLine(parse, raw).Throw? ==> HandleLine(parse, raw).outcome != Fulfilled
  {
    hide Trim;
  }

  /** What a line does, from its payload alone: which handler it calls with which text, or what it throws. */
  lemma LineExact(parse: string -> Json, raw: string)
    ensures var effect := HandleLine(parse, raw);
      match PayloadOf(raw)
      case None => effect == Skip
      case Some(payload) =>
        match parse(payload)
        case Malformed => effect == Skip
        case Other => effect == Skip
        case Null => effect == Throw(TypeError)
        case Failure(message) => effect == Throw(ChatError(message))
        case Delta(text, thinking) =>
          && (text != "" ==> effect == Emit(OnDelta(text)))
          && (text == "" && thinking != "" ==> effect == Emit(OnThinking(thinking)))
          && (text == "" && thinking == "" ==> effect == Skip)
  {
    hide Trim;
  }

  /** The texts of the deltas among `lines`, and the thinking of those without text. */
  function TextsIn(parse: string -> Json, lines: seq<string>): seq<string> {
    if lines == [] then []
    else
      var payload := PayloadOf(lines[0]);
      (if payload.Some? && parse(payload.value).Delta? && parse(payload.value).text != ""
       then [parse(payload.value).text] else [])
      + TextsIn(parse, lines[1..])
  }

  function ThinkingIn(parse: string -> Json, lines: seq<string>): seq<string> {
    if lines == [] then []
    else
      var payload := PayloadOf(lines[0]);
      (if payload.Some? && parse(payload.value).Delta? && parse(payload.value).text == "" && parse(payload.value).thinking != ""
       then [parse(payload.value).thinking] else [])
      + ThinkingIn(parse, lines[1..])
  }

  /** What each of the handlers gets over a sequence of calls. */
  function DeltasOf(calls: seq<Call>): seq<string> {
    if calls == [] then [] else (if calls[0].OnDelta? then [calls[0].text] else []) + DeltasOf(calls[1..])
  }

  function ThoughtsOf(calls: seq<Call>): seq<string> {
    if calls == [] then [] else (if calls[0].OnThinking? then [calls[0].text] else []) + ThoughtsOf(calls[1..])
  }

  lemma {:induction false} CallsAppend(a: seq<Call>, b: seq<Call>)
    ensures DeltasOf(a + b) == DeltasOf(a) + DeltasOf(b) && ThoughtsOf(a + b) == ThoughtsOf(a) + ThoughtsOf(b)
  {
    if a == [] {
      assert a + b == b;
    } else {
      var more := a[1..] + b;
      assert (a + b)[1..] == more && (a + b)[0] == a[0];
      CallsAppend(a[1..], b);
      CallsCons(a + b);
      CallsCons(a);
      hide DeltasOf, ThoughtsOf;
      Assoc(DeltasOf([a[0]]), DeltasOf(a[1..]), DeltasOf(b));
      Assoc(ThoughtsOf([a[0]]), ThoughtsOf(a[1..]), ThoughtsOf(b));
    }
  }

  lemma CallsCons(a: seq<Call>)
    requires a != []
    ensures DeltasOf(a) == DeltasOf([a[0]]) + DeltasOf(a[1..]) && ThoughtsOf(a) == ThoughtsOf([a[0]]) + ThoughtsOf(a[1..])
  {
    OneCall(a[0]);
  }

  lemma OneCall(call: Call)
    ensures DeltasOf([call]) == (if call.OnDelta? then [call.text] else [])
    ensures ThoughtsOf([call]) == (if call.OnThinking? then [call.text] else [])
  {
    assert [call][1..] == [];
  }

  /** The two handlers get from one line what it holds. */
  lemma OneHandedOver(parse: string -> Json, raw: string)
    ensures DeltasOf(CallsOf(parse, [raw])) == TextsIn(parse, [raw])
    ensures ThoughtsOf(CallsOf(parse, [raw])) == ThinkingIn(parse, [raw])
  {
    LineExact(parse, raw);
    hide HandleLine, PayloadOf;
    assert [raw][1..] == [];
  }

  lemma CallsApart(parse: string -> Json, lines: seq<string>, one: seq<string>)
    requires lines != [] && one == [lines[0]]
    ensures CallsOf(parse, lines) == CallsOf(parse, one) + CallsOf(parse, lines[1..])
  {
    hide HandleLine, PayloadOf;
    assert one[0] == lines[0] && one[1..] == [];
    assert CallsOf(parse, one[1..]) == [];
  }

  lemma TextsApart(parse: string -> Json, lines: seq<string>, one: seq<string>)
    requires lines != [] && one == [lines[0]]
    ensures TextsIn(parse, lines) == TextsIn(parse, one) + TextsIn(parse, lines[1..])
  {
    hide HandleLine, PayloadOf;
    assert one[0] == lines[0] && one[1..] == [];
    assert TextsIn(parse, one[1..]) == [];
  }

  lemma ThinkingApart(parse: string -> Json, lines: seq<string>, one: seq<string>)
    requires lines != [] && one == [lines[0]]
    ensures ThinkingIn(parse, lines) == ThinkingIn(parse, one) + ThinkingIn(parse, lines[1..])
  {
    hide HandleLine, PayloadOf;
    assert one[0] == lines[0] && one[1..] == [];
    assert ThinkingIn(parse, one[1..]) == [];
  }

  lemma {:induction false} HandedOver(parse: string -> Json, lines: seq<string>)
    ensures DeltasOf(CallsOf(parse, lines)) == TextsIn(parse, lines)
    ensures ThoughtsOf(CallsOf(parse, lines)) == ThinkingIn(parse, lines)
  {
    if lines != [] {
      hide CallsOf, TextsIn, ThinkingIn, DeltasOf, ThoughtsOf;
      CallsApart(parse, lines, [lines[0]]);
      TextsApart(parse, lines, [lines[0]]);
      ThinkingApart(parse, lines, [lines[0]]);
      OneHandedOver(parse, lines[0]);
      HandedOver(parse, lines[1..]);
      CallsAppend(CallsOf(parse, [lines[0]]), CallsOf(parse, lines[1..]));
    }
  }

  /** The calls of the lines taken one by one. */
  function CallsOf(parse: string -> Json, lines: seq<string>): seq<Call> {
    if lines == [] then []
    else (match HandleLine(parse, lines[0]) case Emit(call) => [call] case _ => []) + CallsOf(parse, lines[1..])
  }

  /** The first `k` lines go through, and the one after them, if any, throws. */
  ghost predicate StopsAt(parse: string -> Json, lines: seq<string>, k: nat) {
    && k <= |lines|
    && (forall i :: 0 <= i < k ==> !HandleLine(parse, lines[i]).Throw?)
    && (k < |lines| ==> HandleLine(parse, lines[k]).Throw?)
  }

  lemma {:induction false} HandledUpTo(parse: string -> Json, lines: seq<string>, k: nat)
    requires StopsAt(parse, lines, k)
    ensures HandleLines(parse, lines)
         == Run(CallsOf(parse, lines[..k]), if k < |lines| then Some(HandleLine(parse, lines[k]).outcome) else None)
    decreases |lines|
  {
    hide HandleLine;
    if k > 0 {
      assert lines[..k][1..] == lines[1..][..k - 1];
      HandledUpTo(parse, lines[1..], k - 1);
    }
  }

  lemma {:induction false} StopOf(parse: string -> Json, lines: seq<string>) returns (k: nat)
    ensures StopsAt(parse, lines, k)
  {
    hide HandleLine;
    k := 0;
    if lines != [] && !HandleLine(parse, lines[0]).Throw? {
      var rest := StopOf(parse, lines[1..]);
      k := rest + 1;
    }
  }

  lemma {:induction false} NoDoneInLines(parse: string -> Json, lines: seq<string>)
    ensures OnDone !in CallsOf(parse, lines)
  {
    hide HandleLine, ErrorLine, NullLine;
    if lines != [] {
      ThrowsExact(parse, lines[0]);
      NoDoneInLines(parse, lines[1..]);
    }
  }

  /**
   * The handlers see exactly the calls of the lines before the first that
   * throws, and after them `onDone` if there is none and the connection holds.
   */
  lemma CallsExact(parse: string -> Json, text: string, broken: bool) returns (k: nat)
    ensures StopsAt(parse, Lines(text), k)
    ensures var calls := CallsOf(parse, Lines(text)[..k]);
      && OnDone !in calls
      && Response(parse, text, broken) ==
           if k < |Lines(text)| then (calls, HandleLine(parse, Lines(text)[k]).outcome)
           else if broken then (calls, ReadRejected)
           else (calls + [OnDone], Fulfilled)
  {
    hide HandleLine, HandleLines, CallsOf, LinesFrom;
    k := StopOf(parse, Lines(text));
    HandledUpTo(parse, Lines(text), k);
    NoDoneInLines(parse, Lines(text)[..k]);
  }

  /**
   * onDelta gets the texts of the deltas before the first line that throws, in
   * order and each once, and onThinking the thinking of those without text.
   */
  lemma HandlersGet(parse: string -> Json, text: string, broken: bool) returns (k: nat)
    ensures StopsAt(parse, Lines(text), k)
    ensures var (calls, outcome) := Response(parse, text, broken);
      && DeltasOf(calls) == TextsIn(parse, Lines(text)[..k])
      && ThoughtsOf(calls) == ThinkingIn(parse, Lines(text)[..k])
  {
    hide HandleLine, HandleLines, CallsOf, LinesFrom, DeltasOf, ThoughtsOf, TextsIn, ThinkingIn;
    k := CallsExact(parse, text, broken);
    var calls := CallsOf(parse, Lines(text)[..k]);
    HandedOver(parse, Lines(text)[..k]);
    CallsAppend(calls, [OnDone]);
    OneCall(OnDone);
    assert TextsIn(parse, Lines(text)[..k]) + [] == TextsIn(parse, Lines(text)[..k]);
    assert ThinkingIn(parse, Lines(text)[..k]) + [] == ThinkingIn(parse, Lines(text)[..k]);
  }

  /**
   * `onDone` is called, last and once, exactly when the connection holds and no
   * line is an error event or null; the promise is fulfilled just then. An
   * unterminated last line is never dispatched.
   */
  lemma ResponseShape(parse: string -> Json, text: string, broken: bool)
    ensures var (calls, outcome) := Response(parse, text, broken);
      && (OnDone in calls <==> !broken && forall l :: l in Lines(text) ==> !ErrorLine(parse, l) && !NullLine(parse, l))
      && (outcome == Fulfilled <==> OnDone in calls)
      && (forall i :: 0 <= i < |calls| && calls[i] == OnDone ==> i == |calls| - 1)
    ensures Response(parse, text, broken) == Response(parse, Unlines(Lines(text)), broken)
  {
    hide HandleLine, HandleLines, ErrorLine, NullLine, CallsOf, LinesFrom;
    var lines := Lines(text);
    var k := CallsExact(parse, text, broken);
    forall l | l in lines
      ensures (HandleLine(parse, l).Throw? <==> ErrorLine(parse, l) || NullLine(parse, l))
      ensures HandleLine(parse, l).Throw? ==> HandleLine(parse, l).outcome != Fulfilled
    {
      ThrowsExact(parse, l);
    }
    if k < |lines| {
      assert lines[k] in lines;
    }
    LinesExact(text, lines, Tail(text));
    var whole := Unlines(lines);
    assert whole + "" == whole;
    LinesExact(whole, lines, "");
  }

  /**
   * The promise: `onDone` exactly when there was no error event. On a
   * connection that holds, it is kept exactly when there is an error event or
   * no line is null.
   */
  lemma DonePromiseExact(parse: string -> Json, text: string)
    ensures var noError := forall l :: l in Lines(text) ==> !ErrorLine(parse, l);
      (OnDone in Response(parse, text, false).0 <==> noError)
      <==> !noError || forall l :: l in Lines(text) ==> !NullLine(parse, l)
  {
    hide ErrorLine, NullLine, Response, LinesFrom;
    ResponseShape(parse, text, false);
  }

  lemma TrimClean(s: string)
    requires s != "" && !IsSpace(s[0]) && !IsSpace(s[|s| - 1])
    ensures Trim(s) == s && Trim(" " + s) == s
  {
    assert (" " + s)[1..] == s;
  }

  lemma NullIsThrown(parse: string -> Json, raw: string)
    requires parse("null") == Null && raw == "data: null"
    ensures HandleLine(parse, raw) == Throw(TypeError)
  {
    hide Trim;
    TrimClean(raw);
    assert raw[5..] == " " + "null";
    TrimClean("null");
  }

  /** A line holding null rejects a response that has no error event. */
  lemma NullEvent(parse: string -> Json, text: string)
    requires parse("null") == Null && text == "data: null" + "\n"
    ensures Response(parse, text, false) == ([], TypeError)
  {
    hide HandleLine, LinesFrom, TailFrom;
    var raw := text[..10];
    NullIsThrown(parse, raw);
    FirstLine(text, 10);
    assert text[11..] == "";
    NothingRead(parse, []);
    assert Lines(text) == [raw];
    OneLine(parse, raw);
  }
}
