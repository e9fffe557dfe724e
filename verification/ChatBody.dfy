/** GenerateChatBody of pkg/cursor/body.go: OpenAI messages to one framed request. */
module ChatBody {
  import opened Basics
  import opened Wire
  import opened Messages
  import opened Envelopes

  /** An OpenAI message with its content already flattened to text. */
  datatype OpenAiMessage = OpenAiMessage(role: string, text: Bytes)

  /** What the generator takes from its surroundings: gzip, fresh UUIDs in call order, and the clock. */
  datatype Surroundings = Surroundings(gzip: Bytes -> Bytes, newId: nat -> Bytes, timestamp: Bytes)

  const NEWLINE: byte := 10

  // ---------- the generator ----------

  function AddInstruction(instruction: Bytes, m: OpenAiMessage): Bytes {
    if m.role != "system" then instruction
    else (if instruction != [] then instruction + [NEWLINE] else instruction) + m.text
  }

  function Format(m: OpenAiMessage, id: Bytes): ChatMessage {
    var user := m.role == "user";
    ChatMessage(m.text, if user then 1 else 2, id, if user then 1 else 0, [])
  }

  /** The messages that are not system prompts, in order. */
  function Spoken(messages: seq<OpenAiMessage>): seq<OpenAiMessage> {
    if messages == [] then []
    else (if messages[0].role == "system" then [] else [messages[0]]) + Spoken(messages[1..])
  }

  function Formatted(spoken: seq<OpenAiMessage>, newId: nat -> Bytes): (r: seq<ChatMessage>)
    ensures |r| == |spoken|
  {
    seq(|spoken|, i requires 0 <= i < |spoken| => Format(spoken[i], newId(i)))
  }

  function RefsOf(formatted: seq<ChatMessage>): (r: seq<MessageIdRef>)
    ensures |r| == |formatted|
  {
    seq(|formatted|, i requires 0 <= i < |formatted| =>
      MessageIdRef(formatted[i].messageId, formatted[i].summaryId, formatted[i].role))
  }

  function Client(timestamp: Bytes): RequestMetadata {
    RequestMetadata(Ascii("win32"), Ascii("x64"), Ascii("10.0.22631"),
      Ascii("C:\\Program Files\\PowerShell\\7\\pwsh.exe"), timestamp)
  }

  function Compose(formatted: seq<ChatMessage>, instruction: Bytes, modelName: Bytes, env: Surroundings): ChatRequest {
    NO_REQUEST.(
      messages := formatted,
      unknown2 := 1,
      instruction := instruction,
      unknown4 := 1,
      modelName := modelName,
      unknown13 := 1,
      unknown19 := 1,
      conversationId := env.newId(|formatted|),
      metadata := Some(Client(env.timestamp)),
      messageIds := RefsOf(formatted),
      chatModeEnum := 1,
      unknown53 := 1,
      chatMode := Ascii("Ask"))
  }

  function RequestOf(messages: seq<OpenAiMessage>, modelName: Bytes, env: Surroundings): ChatRequest {
    Compose(Formatted(Spoken(messages), env.newId), Fold(AddInstruction, [], messages), modelName, env)
  }

  function Payload(messages: seq<OpenAiMessage>, modelName: Bytes, env: Surroundings): Bytes {
    EncodeStreamUnifiedChatRequest(Some(RequestOf(messages, modelName, env))).value
  }

  function Body(messages: seq<OpenAiMessage>, modelName: Bytes, env: Surroundings): (body: Bytes)
    ensures |body| >= 5 && body[0] == if |Spoken(messages)| >= 3 then 1 else 0
  {
    var payload := Payload(messages, modelName, env);
    if |Spoken(messages)| >= 3 then Envelope(1, env.gzip(payload)) else Envelope(0, payload)
  }

  lemma {:induction false} SpokenAppend(a: seq<OpenAiMessage>, b: seq<OpenAiMessage>)
    ensures Spoken(a + b) == Spoken(a) + Spoken(b)
  {
    if a == [] {
      assert a + b == b;
    } else {
      assert (a + b)[1..] == a[1..] + b;
      SpokenAppend(a[1..], b);
    }
  }

  lemma OneMore(messages: seq<OpenAiMessage>, i: nat, newId: nat -> Bytes)
    requires i < |messages|
    ensures Fold(AddInstruction, [], messages[..i + 1]) == AddInstruction(Fold(AddInstruction, [], messages[..i]), messages[i])
    ensures var spoken := Spoken(messages[..i]);
      Formatted(Spoken(messages[..i + 1]), newId) == Formatted(spoken, newId)
        + if messages[i].role == "system" then [] else [Format(messages[i], newId(|spoken|))]
  {
    var m := messages[i];
    assert messages[..i + 1] == messages[..i] + [m];
    FoldAppend(AddInstruction, [], messages[..i], [m]);
    FoldOne(AddInstruction, Fold(AddInstruction, [], messages[..i]), m);
    SpokenAppend(messages[..i], [m]);
    assert Spoken([m]) == if m.role == "system" then [] else [m];
  }

  method GenerateChatBody(messages: seq<OpenAiMessage>, modelName: Bytes, env: Surroundings) returns (out: Bytes)
    ensures out == Body(messages, modelName, env)
  {
    hide EncodeStreamUnifiedChatRequest, Envelope, PutUint32;
    var instruction: Bytes := [];
    var formatted: seq<ChatMessage> := [];
    for i := 0 to |messages|
      invariant instruction == Fold(AddInstruction, [], messages[..i])
      invariant formatted == Formatted(Spoken(messages[..i]), env.newId)
    {
      var m := messages[i];
      OneMore(messages, i, env.newId);
      if m.role == "system" {
        if instruction != [] {
          instruction := instruction + [NEWLINE];
        }
        instruction := instruction + m.text;
        continue;
      }
      var cm := ChatMessage(m.text, 0, env.newId(|formatted|), 0, []);
      if m.role == "user" {
        cm := cm.(role := 1, chatModeEnum := 1);
      } else {
        cm := cm.(role := 2);
      }
      formatted := formatted + [cm];
    }
    assert messages[..|messages|] == messages;
    var refs := CollectRefs(formatted);
    var req := Compose(formatted, instruction, modelName, env).(messageIds := refs);
    var payload := EncodeStreamUnifiedChatRequest(Some(req)).value;
    var flag: byte := 0;
    if |formatted| >= 3 {
      payload := env.gzip(payload);
      flag := 1;
    }
    out := WriteEnvelope(flag, payload);
  }

  /** The loop that builds the parallel id-reference list. */
  method CollectRefs(formatted: seq<ChatMessage>) returns (refs: seq<MessageIdRef>)
    ensures refs == RefsOf(formatted)
  {
    refs := [];
    for i := 0 to |formatted|
      invariant refs == RefsOf(formatted)[..i]
    {
      var m := formatted[i];
      refs := refs + [MessageIdRef(m.messageId, m.summaryId, m.role)];
    }
  }

  method WriteEnvelope(flag: byte, payload: Bytes) returns (out: Bytes)
    ensures out == Envelope(flag, payload)
  {
    out := [flag];
    out := out + PutUint32(|payload|);
    out := out + payload;
  }

  // ---------- what the body holds ----------

  /** Takes the header off and gunzips where the flag says so; None if the length is wrong or that fails. */
  function Unframe(body: Bytes, gunzip: Bytes -> Option<Bytes>): Option<Bytes> {
    if |body| < 5 || Uint32(body[1..5]) != |body| - 5 then None
    else if Compressed(body[0]) then gunzip(body[5..])
    else Some(body[5..])
  }

  ghost predicate IsSpoken(messages: seq<OpenAiMessage>, i: int) {
    0 <= i < |messages| && messages[i].role != "system"
  }

  /** `at` are the positions of all messages that are not system prompts, rising. */
  ghost predicate SpokenAt(messages: seq<OpenAiMessage>, at: seq<nat>) {
    && (forall k :: 0 <= k < |at| ==> IsSpoken(messages, at[k]))
    && (forall k, l :: 0 <= k < l < |at| ==> at[k] < at[l])
    && (forall i :: IsSpoken(messages, i) ==> Among(at, i))
  }

  ghost predicate Among(at: seq<nat>, i: int) {
    exists k :: 0 <= k < |at| && at[k] == i
  }

  lemma {:induction false} SpokenExact(messages: seq<OpenAiMessage>) returns (at: seq<nat>)
    ensures SpokenAt(messages, at) && |Spoken(messages)| == |at|
    ensures forall k :: 0 <= k < |at| ==> Spoken(messages)[k] == messages[at[k]]
    decreases |messages|
  {
    if messages == [] {
      at := [];
    } else {
      var n := |messages| - 1;
      var front, last := messages[..n], messages[n];
      var before := SpokenExact(front);
      assert messages == front + [last];
      SpokenAppend(front, [last]);
      SpokenOne(last);
      at := SpokenNext(messages, before);
      SpokenGrows(messages, Spoken(front), before, Spoken(messages), at);
    }
  }

  lemma SpokenGrows(
    messages: seq<OpenAiMessage>, was: seq<OpenAiMessage>, before: seq<nat>, now: seq<OpenAiMessage>, at: seq<nat>)
    requires messages != [] && |was| == |before|
    requires forall k :: 0 <= k < |before| ==> before[k] < |messages| - 1 && was[k] == messages[before[k]]
    requires var last := messages[|messages| - 1];
      && now == was + (if last.role == "system" then [] else [last])
      && at == if last.role == "system" then before else before + [|messages| - 1]
    ensures |now| == |at| && forall k :: 0 <= k < |at| ==> at[k] < |messages| && now[k] == messages[at[k]]
  {
  }

  lemma SpokenOne(m: OpenAiMessage)
    ensures Spoken([m]) == if m.role == "system" then [] else [m]
  {
    assert [m][1..] == [];
  }

  lemma SpokenFront(messages: seq<OpenAiMessage>, i: int)
    requires messages != []
    ensures IsSpoken(messages[..|messages| - 1], i) <==> IsSpoken(messages, i) && i < |messages| - 1
    ensures IsSpoken(messages, |messages| - 1) <==> messages[|messages| - 1].role != "system"
    ensures IsSpoken(messages, i) ==> i <= |messages| - 1
  {
  }

  lemma AmongMore(before: seq<nat>, n: nat, i: int)
    ensures Among(before + [n], i) <==> Among(before, i) || i == n
  {
    var at := before + [n];
    assert at[|before|] == n;
    if Among(before, i) {
      var k :| 0 <= k < |before| && before[k] == i;
      assert at[k] == i;
    }
  }

  lemma SpokenNext(messages: seq<OpenAiMessage>, before: seq<nat>) returns (at: seq<nat>)
    requires messages != [] && SpokenAt(messages[..|messages| - 1], before)
    ensures SpokenAt(messages, at)
    ensures at == if messages[|messages| - 1].role == "system" then before else before + [|messages| - 1]
    ensures forall k :: 0 <= k < |before| ==> before[k] < |messages| - 1
  {
    var n := |messages| - 1;
    forall i
      ensures IsSpoken(messages[..n], i) <==> IsSpoken(messages, i) && i < n
      ensures IsSpoken(messages, i) ==> i <= n
      ensures Among(before + [n], i) <==> Among(before, i) || i == n
    {
      SpokenFront(messages, i);
      AmongMore(before, n, i);
    }
    SpokenFront(messages, n);
    hide IsSpoken, Among;
    at := if messages[n].role == "system" then before else before + [n];
  }

  /** The conversation: every spoken message in place, the reference list in step with it, ids in call order. */
  lemma Conversation(messages: seq<OpenAiMessage>, modelName: Bytes, env: Surroundings, i: nat)
    requires i < |Spoken(messages)|
    ensures var r, m := RequestOf(messages, modelName, env), Spoken(messages)[i];
      var user := m.role == "user";
      && |r.messages| == |r.messageIds| == |Spoken(messages)|
      && r.messages[i] == ChatMessage(m.text, if user then 1 else 2, env.newId(i), if user then 1 else 0, [])
      && r.messageIds[i] == MessageIdRef(env.newId(i), [], if user then 1 else 2)
  {
    var spoken := Spoken(messages);
    var formatted := Formatted(spoken, env.newId);
    assert formatted[i] == Format(spoken[i], env.newId(i));
    assert RefsOf(formatted)[i] == MessageIdRef(formatted[i].messageId, formatted[i].summaryId, formatted[i].role);
  }

  lemma {:induction false} WithoutAbsent<T>(s: seq<T>, x: T)
    requires x !in s
    ensures Without(s, x) == s
  {
    if s != [] {
      WithoutAbsent(s[1..], x);
    }
  }

  lemma NothingVanishes(messages: seq<OpenAiMessage>, modelName: Bytes, env: Surroundings)
    ensures Normal(RequestOf(messages, modelName, env)) == RequestOf(messages, modelName, env)
  {
    var r := RequestOf(messages, modelName, env);
    forall i | 0 <= i < |r.messages| ensures r.messages[i].role != 0 && r.messageIds[i].role != 0 {
      Conversation(messages, modelName, env, i);
    }
    assert NO_MESSAGE !in r.messages;
    WithoutAbsent(r.messages, NO_MESSAGE);
    assert NO_REF !in r.messageIds;
    WithoutAbsent(r.messageIds, NO_REF);
    assert |r.metadata.value.os| == 5;
  }

  lemma UnframeEnvelope(flag: byte, wire: Bytes, gunzip: Bytes -> Option<Bytes>)
    requires |wire| < LENGTH_LIMIT
    ensures Unframe(Envelope(flag, wire), gunzip) == if Compressed(flag) then gunzip(wire) else Some(wire)
  {
    var s := Envelope(flag, wire);
    EnvelopeParts(flag, wire, []);
    hide Envelope, Uint32, PutUint32;
    assert s + [] == s && wire + [] == wire;
  }

  lemma BodyUnframes(messages: seq<OpenAiMessage>, modelName: Bytes, env: Surroundings, gunzip: Bytes -> Option<Bytes>)
    requires forall b :: gunzip(env.gzip(b)) == Some(b)
    requires |Body(messages, modelName, env)| - 5 < LENGTH_LIMIT
    ensures Unframe(Body(messages, modelName, env), gunzip) == Some(Payload(messages, modelName, env))
  {
    hide Payload, Envelope, Unframe;
    var payload := Payload(messages, modelName, env);
    if |Spoken(messages)| >= 3 {
      UnframeEnvelope(1, env.gzip(payload), gunzip);
    } else {
      UnframeEnvelope(0, payload, gunzip);
    }
  }

  lemma EnvelopeSize(r: ChatRequest)
    ensures |EncodeRequest(r)| <= |EncodeStreamUnifiedChatRequest(Some(r)).value|
  {
    hide EncodeRequest;
  }

  /**
   * As long as the payload on the wire is shorter than 2^32 bytes, unframing
   * and parsing the body gives one field, in it the fields of the composed
   * request and no other; read back, they are that request with nothing lost.
   */
  lemma BodyRoundTrip(messages: seq<OpenAiMessage>, modelName: Bytes, env: Surroundings, gunzip: Bytes -> Option<Bytes>)
    requires forall b :: gunzip(env.gzip(b)) == Some(b)
    requires |Payload(messages, modelName, env)| < TWO_64
    requires |Body(messages, modelName, env)| - 5 < LENGTH_LIMIT
    ensures var r := RequestOf(messages, modelName, env);
      && Unframe(Body(messages, modelName, env), gunzip) == Some(Payload(messages, modelName, env))
      && Parse(Payload(messages, modelName, env)) == Ok([Field(1, 2, 0, EncodeRequest(r))])
      && Parse(EncodeRequest(r)) == Ok(RequestFields(r))
      && ReadEnvelope(Payload(messages, modelName, env)) == Some([Some(Seen(r, [CursorSetting()]))])
  {
    hide RequestOf, EncodeStreamUnifiedChatRequest, EncodeRequest, RequestFields, CursorSetting, Normal,
      Parse, ReadEnvelope, ReadRequest, Body, Unframe;
    var r := RequestOf(messages, modelName, env);
    NothingVanishes(messages, modelName, env);
    EnvelopeSize(r);
    RequestRoundTrip(r);
    EnvelopeRoundTrip(Some(r));
    BodyUnframes(messages, modelName, env, gunzip);
  }

  /** The body is a frame, its header stating the true length, exactly when that length is below 2^32. */
  lemma HeaderLength(messages: seq<OpenAiMessage>, modelName: Bytes, env: Surroundings, body: Bytes)
    requires body == Body(messages, modelName, env)
    ensures |body| >= 5 && body[0] == if |Spoken(messages)| >= 3 then 1 else 0
    ensures IsFrame(body, body[0], body[5..]) <==> |body| - 5 < 0x1_0000_0000
  {
    hide Payload, Envelope, Uint32;
    var payload := Payload(messages, modelName, env);
    var wire := if |Spoken(messages)| >= 3 then env.gzip(payload) else payload;
    EnvelopeIsFrame(body[0], wire);
    EnvelopeParts(body[0], wire, []);
    assert body + [] == body && wire + [] == wire;
  }

  // ---------- the instruction ----------

  function SystemTexts(messages: seq<OpenAiMessage>): seq<Bytes> {
    if messages == [] then []
    else (if messages[0].role == "system" then [messages[0].text] else []) + SystemTexts(messages[1..])
  }

  function JoinLines(texts: seq<Bytes>): Bytes {
    if texts == [] then []
    else if |texts| == 1 then texts[0]
    else texts[0] + [NEWLINE] + JoinLines(texts[1..])
  }

  function SkipEmpty(texts: seq<Bytes>): seq<Bytes> {
    if texts != [] && texts[0] == [] then SkipEmpty(texts[1..]) else texts
  }

  lemma {:induction false} InstructionFrom(first: Bytes, messages: seq<OpenAiMessage>)
    requires first != []
    ensures Fold(AddInstruction, first, messages) == JoinLines([first] + SystemTexts(messages))
    decreases |messages|
  {
    if messages != [] {
      var m, rest := messages[0], messages[1..];
      if m.role == "system" {
        var joined := first + [NEWLINE] + m.text;
        InstructionFrom(joined, rest);
        var texts := SystemTexts(rest);
        assert SystemTexts(messages) == [m.text] + texts;
        assert ([first] + SystemTexts(messages))[1..] == [m.text] + texts;
        assert ([joined] + texts)[1..] == texts && ([m.text] + texts)[1..] == texts;
        if texts != [] {
          assert joined + [NEWLINE] + JoinLines(texts) == first + [NEWLINE] + (m.text + [NEWLINE] + JoinLines(texts));
        }
      } else {
        InstructionFrom(first, rest);
        assert SystemTexts(messages) == SystemTexts(rest);
      }
    }
  }

  /** The instruction is the system texts, one per line; texts that are empty before the first non-empty one leave no line. */
  lemma {:induction false} InstructionIsJoined(messages: seq<OpenAiMessage>, modelName: Bytes, env: Surroundings)
    ensures RequestOf(messages, modelName, env).instruction == JoinLines(SkipEmpty(SystemTexts(messages)))
    decreases |messages|
  {
    if messages != [] {
      var m, rest := messages[0], messages[1..];
      InstructionIsJoined(rest, modelName, env);
      if m.role == "system" {
        assert SystemTexts(messages)[1..] == SystemTexts(rest);
        if m.text != [] {
          assert [] + m.text == m.text;
          InstructionFrom(m.text, rest);
          assert SkipEmpty(SystemTexts(messages)) == [m.text] + SystemTexts(rest);
        } else {
          assert AddInstruction([], m) == [];
        }
      } else {
        assert SystemTexts(messages) == SystemTexts(rest);
      }
    }
  }

  // ---------- the body as its reader sees it ----------

  /**
   * Everything a reader finds in the body. It is one frame, gzipped from three
   * spoken messages on. The request in it names the model, has fixed values and
   * fresh ids where the protocol wants them, the client's description with the
   * time, the spoken messages in order with role 1 for the user and 2 for
   * anybody else, a reference for each, and the joined system texts.
   */
  lemma BodySays(messages: seq<OpenAiMessage>, modelName: Bytes, env: Surroundings, gunzip: Bytes -> Option<Bytes>)
    returns (at: seq<nat>, payload: Bytes, q: ChatRequest)
    requires forall b :: gunzip(env.gzip(b)) == Some(b)
    requires |Payload(messages, modelName, env)| < TWO_64
    requires |Body(messages, modelName, env)| - 5 < LENGTH_LIMIT
    ensures SpokenAt(messages, at)
    ensures var body := Body(messages, modelName, env);
      if |at| < 3 then IsFrame(body, 0, payload) else IsFrame(body, 1, body[5..]) && gunzip(body[5..]) == Some(payload)
    ensures ReadEnvelope(payload) == Some([Some(Seen(q, [CursorSetting()]))])
    ensures q == ChatRequest(
      messages := q.messages, unknown2 := 1, instruction := JoinLines(SkipEmpty(SystemTexts(messages))), unknown4 := 1,
      modelName := modelName, webTool := [], unknown13 := 1, unknown19 := 1, conversationId := env.newId(|at|),
      metadata := Some(RequestMetadata(
        os := Ascii("win32"), arch := Ascii("x64"), version := Ascii("10.0.22631"),
        path := Ascii("C:\\Program Files\\PowerShell\\7\\pwsh.exe"), timestamp := env.timestamp)),
      unknown27 := 0, messageIds := q.messageIds, largeContext := 0, unknown38 := 0, chatModeEnum := 1,
      unknown47 := [], unknown48 := 0, unknown49 := 0, unknown51 := 0, unknown53 := 1, chatMode := Ascii("Ask"))
    ensures |q.messages| == |q.messageIds| == |at|
    ensures forall k :: 0 <= k < |at| ==>
      var m := messages[at[k]];
      var user := m.role == "user";
      && q.messages[k] == ChatMessage(
           content := m.text, role := if user then 1 else 2, messageId := env.newId(k),
           chatModeEnum := if user then 1 else 0, summaryId := [])
      && q.messageIds[k] == MessageIdRef(messageId := env.newId(k), summaryId := [], role := if user then 1 else 2)
  {
    at := SpokenExact(messages);
    payload := Payload(messages, modelName, env);
    q := RequestOf(messages, modelName, env);
    BodyRoundTrip(messages, modelName, env, gunzip);
    BodyIsFrame(messages, modelName, env, gunzip);
    RequestValues(messages, modelName, env);
    InstructionIsJoined(messages, modelName, env);
    hide RequestOf, Payload, Body, Unframe, ReadEnvelope, CursorSetting, Spoken, IsFrame, SpokenAt, Parse, EncodeRequest,
      RequestFields, JoinLines, SkipEmpty, SystemTexts, Ascii;
    forall k | 0 <= k < |at|
      ensures var m := messages[at[k]];
        var user := m.role == "user";
        && q.messages[k] == ChatMessage(m.text, if user then 1 else 2, env.newId(k), if user then 1 else 0, [])
        && q.messageIds[k] == MessageIdRef(env.newId(k), [], if user then 1 else 2)
    {
      Conversation(messages, modelName, env, k);
    }
  }

  lemma BodyIsFrame(messages: seq<OpenAiMessage>, modelName: Bytes, env: Surroundings, gunzip: Bytes -> Option<Bytes>)
    requires forall b :: gunzip(env.gzip(b)) == Some(b)
    requires |Body(messages, modelName, env)| - 5 < LENGTH_LIMIT
    ensures var body, payload := Body(messages, modelName, env), Payload(messages, modelName, env);
      if |Spoken(messages)| < 3 then IsFrame(body, 0, payload)
      else IsFrame(body, 1, body[5..]) && gunzip(body[5..]) == Some(payload)
  {
    hide Payload, Envelope, Uint32;
    var payload := Payload(messages, modelName, env);
    if |Spoken(messages)| < 3 {
      EnvelopeIsFrame(0, payload);
    } else {
      EnvelopeIsFrame(1, env.gzip(payload));
    }
  }

  lemma RequestValues(messages: seq<OpenAiMessage>, modelName: Bytes, env: Surroundings)
    ensures var r := RequestOf(messages, modelName, env);
      && r == ChatRequest(
           r.messages, 1, r.instruction, 1, modelName, [], 1, 1, env.newId(|Spoken(messages)|),
           Some(RequestMetadata(Ascii("win32"), Ascii("x64"), Ascii("10.0.22631"),
             Ascii("C:\\Program Files\\PowerShell\\7\\pwsh.exe"), env.timestamp)),
           0, r.messageIds, 0, 0, 1, [], 0, 0, 0, 1, Ascii("Ask"))
      && |r.messages| == |r.messageIds| == |Spoken(messages)|
  {
    hide Ascii;
  }
}
