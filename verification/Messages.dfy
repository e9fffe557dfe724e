/**
 * The request messages of pkg/cursor/proto.go. Each kind has a layout, which
 * says what every field number holds; what is written parses to exactly those
 * fields in rising order. A reader that knows only the protobuf rules (a
 * scalar keeps its last occurrence, a repeated field collects all of them)
 * therefore gives the request back.
 */
module Messages {
  import opened Basics
  import opened Wire

  datatype ChatMessage = ChatMessage(
    content: Bytes, role: int32, messageId: Bytes, chatModeEnum: int32, summaryId: Bytes)

  datatype RequestMetadata = RequestMetadata(
    os: Bytes, arch: Bytes, version: Bytes, path: Bytes, timestamp: Bytes)

  datatype MessageIdRef = MessageIdRef(messageId: Bytes, summaryId: Bytes, role: int32)

  datatype ChatRequest = ChatRequest(
    messages: seq<ChatMessage>,
    unknown2: int32,
    instruction: Bytes,
    unknown4: int32,
    modelName: Bytes,
    webTool: Bytes,
    unknown13: int32,
    unknown19: int32,
    conversationId: Bytes,
    metadata: Option<RequestMetadata>,
    unknown27: int32,
    messageIds: seq<MessageIdRef>,
    largeContext: int32,
    unknown38: int32,
    chatModeEnum: int32,
    unknown47: Bytes,
    unknown48: int32,
    unknown49: int32,
    unknown51: int32,
    unknown53: int32,
    chatMode: Bytes)

  const NO_MESSAGE := ChatMessage([], 0, [], 0, [])
  const NO_METADATA := RequestMetadata([], [], [], [], [])
  const NO_REF := MessageIdRef([], [], 0)
  const NO_REQUEST := ChatRequest([], 0, [], 0, [], [], 0, 0, [], None, 0, [], 0, 0, 0, [], 0, 0, 0, 0, [])

  // ---------- writers ----------

  function EncodeMessage(m: ChatMessage): Bytes {
    var b := AppendString([], 1, m.content);
    var b := AppendInt32(b, 2, m.role);
    var b := AppendString(b, 13, m.messageId);
    var b := AppendString(b, 32, m.summaryId);
    var b := AppendInt32(b, 47, m.chatModeEnum);
    b
  }

  /** A nil receiver encodes to nil, like one whose fields are all empty. */
  function EncodeMetadata(m: Option<RequestMetadata>): Bytes {
    if m.None? then [] else
      var b := AppendString([], 1, m.value.os);
      var b := AppendString(b, 2, m.value.arch);
      var b := AppendString(b, 3, m.value.version);
      var b := AppendString(b, 4, m.value.path);
      var b := AppendString(b, 5, m.value.timestamp);
      b
  }

  function EncodeRef(m: MessageIdRef): Bytes {
    var b := AppendString([], 1, m.messageId);
    var b := AppendString(b, 2, m.summaryId);
    var b := AppendInt32(b, 3, m.role);
    b
  }

  const CURSOR_SETTING_NAME: Bytes := Ascii("cursor\\aisettings")

  function CursorSetting(): Bytes {
    var unknown6 := AppendBytesField([], 1, []);
    var unknown6 := AppendBytesField(unknown6, 2, []);
    var b := AppendString([], 1, CURSOR_SETTING_NAME);
    var b := AppendBytesField(b, 3, []);
    var b := AppendMessage(b, 6, Some(unknown6));
    var b := AppendInt32(b, 8, 1);
    var b := AppendInt32(b, 9, 1);
    b
  }

  function EncodeInstruction(s: Bytes): Bytes {
    AppendString([], 1, s)
  }

  function EncodeModel(name: Bytes): Bytes {
    AppendBytesField(AppendString([], 1, name), 4, [])
  }

  /** A loop over sub-messages: one length-delimited field each. */
  function AppendAll<T>(b: Bytes, num: nat, encode: T -> Bytes, ms: seq<T>): (r: Bytes)
    ensures |r| >= |b|
    decreases |ms|
  {
    if ms == [] then b else AppendAll(AppendMessage(b, num, Grown(encode(ms[0]))), num, encode, ms[1..])
  }

  /** ChatRequest.encode, in four parts: fields 1 to 5, 8 to 26, 27 to 46, and 47 to 54. */
  function EncodeRequestPrompt(r: ChatRequest): Bytes {
    var b := AppendAll([], 1, EncodeMessage, r.messages);
    var b := AppendInt32(b, 2, r.unknown2);
    var b := if r.instruction != [] then AppendMessage(b, 3, Grown(EncodeInstruction(r.instruction))) else b;
    var b := AppendInt32(b, 4, r.unknown4);
    var b := AppendMessage(b, 5, Grown(EncodeModel(r.modelName)));
    b
  }

  function EncodeRequestHead(r: ChatRequest): Bytes {
    var b := EncodeRequestPrompt(r);
    var b := AppendString(b, 8, r.webTool);
    var b := AppendInt32(b, 13, r.unknown13);
    var b := AppendMessage(b, 15, Grown(CursorSetting()));
    var b := AppendInt32(b, 19, r.unknown19);
    var b := AppendString(b, 23, r.conversationId);
    var b := AppendMessage(b, 26, Grown(EncodeMetadata(r.metadata)));
    b
  }

  function EncodeRequestBody(r: ChatRequest): Bytes {
    var b := EncodeRequestHead(r);
    var b := AppendInt32(b, 27, r.unknown27);
    var b := AppendAll(b, 30, EncodeRef, r.messageIds);
    var b := AppendInt32(b, 35, r.largeContext);
    var b := AppendInt32(b, 38, r.unknown38);
    var b := AppendInt32(b, 46, r.chatModeEnum);
    b
  }

  function EncodeRequest(r: ChatRequest): Bytes {
    var b := EncodeRequestBody(r);
    var b := AppendString(b, 47, r.unknown47);
    var b := AppendInt32(b, 48, r.unknown48);
    var b := AppendInt32(b, 49, r.unknown49);
    var b := AppendInt32(b, 51, r.unknown51);
    var b := AppendInt32(b, 53, r.unknown53);
    var b := AppendString(b, 54, r.chatMode);
    b
  }

  /** EncodeStreamUnifiedChatRequest; None is a nil request, the only one it refuses. */
  function EncodeStreamUnifiedChatRequest(r: Option<ChatRequest>): (b: Option<Bytes>)
    ensures b.Some? <==> r.Some?
  {
    if r.None? then None else Some(AppendMessage([], 1, Grown(EncodeRequest(r.value))))
  }

  // ---------- which number holds what ----------

  /** The fields of a message, number by number. */
  type Layout = nat -> seq<Field>

  ghost predicate AllNumbered(fs: seq<Field>, num: nat) {
    forall i :: 0 <= i < |fs| ==> fs[i].num == num
  }

  function MessageSlot(m: ChatMessage, num: nat): (fs: seq<Field>)
    ensures AllNumbered(fs, num)
  {
    match num
    case 1 => BytesFields(1, m.content)
    case 2 => Int32Fields(2, m.role)
    case 13 => BytesFields(13, m.messageId)
    case 32 => BytesFields(32, m.summaryId)
    case 47 => Int32Fields(47, m.chatModeEnum)
    case _ => []
  }

  function MessageLayout(m: ChatMessage): Layout {
    (num: nat) => MessageSlot(m, num)
  }

  function MetadataSlot(m: RequestMetadata, num: nat): (fs: seq<Field>)
    ensures AllNumbered(fs, num)
  {
    match num
    case 1 => BytesFields(1, m.os)
    case 2 => BytesFields(2, m.arch)
    case 3 => BytesFields(3, m.version)
    case 4 => BytesFields(4, m.path)
    case 5 => BytesFields(5, m.timestamp)
    case _ => []
  }

  function MetadataLayout(m: RequestMetadata): Layout {
    (num: nat) => MetadataSlot(m, num)
  }

  function RefSlot(m: MessageIdRef, num: nat): (fs: seq<Field>)
    ensures AllNumbered(fs, num)
  {
    match num
    case 1 => BytesFields(1, m.messageId)
    case 2 => BytesFields(2, m.summaryId)
    case 3 => Int32Fields(3, m.role)
    case _ => []
  }

  function RefLayout(m: MessageIdRef): Layout {
    (num: nat) => RefSlot(m, num)
  }

  /** One field per sub-message, in order, but none for an all-default one. */
  function Submessages<T>(num: nat, encode: T -> Bytes, ms: seq<T>): (fs: seq<Field>)
    ensures AllNumbered(fs, num)
  {
    if ms == [] then [] else BytesFields(num, encode(ms[0])) + Submessages(num, encode, ms[1..])
  }

  function RequestSlot(r: ChatRequest, num: nat): (fs: seq<Field>)
    ensures AllNumbered(fs, num)
  {
    match num
    case 1 => Submessages(1, EncodeMessage, r.messages)
    case 2 => Int32Fields(2, r.unknown2)
    case 3 => BytesFields(3, EncodeInstruction(r.instruction))
    case 4 => Int32Fields(4, r.unknown4)
    case 5 => [Field(5, 2, 0, EncodeModel(r.modelName))]
    case 8 => BytesFields(8, r.webTool)
    case 13 => Int32Fields(13, r.unknown13)
    case 15 => [Field(15, 2, 0, CursorSetting())]
    case 19 => Int32Fields(19, r.unknown19)
    case 23 => BytesFields(23, r.conversationId)
    case 26 => BytesFields(26, EncodeMetadata(r.metadata))
    case 27 => Int32Fields(27, r.unknown27)
    case 30 => Submessages(30, EncodeRef, r.messageIds)
    case 35 => Int32Fields(35, r.largeContext)
    case 38 => Int32Fields(38, r.unknown38)
    case 46 => Int32Fields(46, r.chatModeEnum)
    case 47 => BytesFields(47, r.unknown47)
    case 48 => Int32Fields(48, r.unknown48)
    case 49 => Int32Fields(49, r.unknown49)
    case 51 => Int32Fields(51, r.unknown51)
    case 53 => Int32Fields(53, r.unknown53)
    case 54 => BytesFields(54, r.chatMode)
    case _ => []
  }

  function RequestLayout(r: ChatRequest): Layout {
    (num: nat) => RequestSlot(r, num)
  }

  /** The fields numbered 1 to `top`, in that order. */
  function InOrder(layout: Layout, top: nat): seq<Field> {
    if top == 0 then [] else InOrder(layout, top - 1) + layout(top)
  }

  function MessageFields(m: ChatMessage): seq<Field> {
    InOrder(MessageLayout(m), 47)
  }

  function MetadataFields(m: RequestMetadata): seq<Field> {
    InOrder(MetadataLayout(m), 5)
  }

  function RefFields(m: MessageIdRef): seq<Field> {
    InOrder(RefLayout(m), 3)
  }

  function RequestFields(r: ChatRequest): seq<Field> {
    InOrder(RequestLayout(r), 54)
  }

  /** The fields with a given number. */
  function Numbered(fs: seq<Field>, num: nat): seq<Field> {
    if fs == [] then [] else (if fs[0].num == num then [fs[0]] else []) + Numbered(fs[1..], num)
  }

  ghost predicate Rising(fs: seq<Field>) {
    forall i, j :: 0 <= i < j < |fs| ==> fs[i].num <= fs[j].num
  }

  ghost predicate OwnNumbers(layout: Layout) {
    forall num :: AllNumbered(layout(num), num)
  }

  lemma {:induction false} NumberedAppend(a: seq<Field>, b: seq<Field>, num: nat)
    ensures Numbered(a + b, num) == Numbered(a, num) + Numbered(b, num)
  {
    if a == [] {
      assert a + b == b;
    } else {
      assert (a + b)[1..] == a[1..] + b;
      NumberedAppend(a[1..], b, num);
      var head := if a[0].num == num then [a[0]] else [];
      var more := Numbered(a[1..], num);
      assert head + (more + Numbered(b, num)) == head + more + Numbered(b, num);
    }
  }

  lemma {:induction false} NumberedAll(fs: seq<Field>, own: nat, num: nat)
    requires AllNumbered(fs, own)
    ensures Numbered(fs, num) == if num == own then fs else []
  {
    if fs != [] {
      NumberedAll(fs[1..], own, num);
    }
  }

  ghost predicate RisingTo(fs: seq<Field>, top: nat) {
    Rising(fs) && forall i :: 0 <= i < |fs| ==> fs[i].num <= top
  }

  lemma RisingAppend(a: seq<Field>, b: seq<Field>, top: nat)
    requires RisingTo(a, top) && AllNumbered(b, top + 1)
    ensures RisingTo(a + b, top + 1)
  {
  }

  /** The numbers never fall, none is above `top`, and each number has its own fields and no other. */
  lemma {:induction false} InOrderExact(layout: Layout, top: nat, num: nat)
    requires OwnNumbers(layout)
    ensures var fs := InOrder(layout, top);
      && RisingTo(fs, top)
      && Numbered(fs, num) == if 1 <= num <= top then layout(num) else []
    decreases top
  {
    hide Numbered, AllNumbered, RisingTo;
    if top == 0 {
      RisingNothing(num);
    } else {
      InOrderExact(layout, top - 1, num);
      RisingAppend(InOrder(layout, top - 1), layout(top), top - 1);
      NumberedAppend(InOrder(layout, top - 1), layout(top), num);
      NumberedAll(layout(top), top, num);
    }
  }

  lemma RisingNothing(num: nat)
    ensures RisingTo([], 0) && Numbered([], num) == []
  {
  }

  /**
   * A request's fields rise in number and each number holds exactly what the
   * layout says: a scalar once when it is not the default and never
   * otherwise, a sub-message each time it is not empty, and nothing else.
   */
  lemma RequestFieldsExact(r: ChatRequest, num: nat)
    ensures Rising(RequestFields(r)) && Numbered(RequestFields(r), num) == RequestSlot(r, num)
  {
    hide EncodeMessage, EncodeRef, EncodeMetadata, EncodeModel, EncodeInstruction, CursorSetting, InOrder, Numbered;
    InOrderExact(RequestLayout(r), 54, num);
  }

  /** The same for the sub-messages whose fields are all optional. */
  lemma SubmessageFieldsExact(m: ChatMessage, c: RequestMetadata, ref: MessageIdRef, num: nat)
    ensures Rising(MessageFields(m)) && Numbered(MessageFields(m), num) == MessageSlot(m, num)
    ensures Rising(MetadataFields(c)) && Numbered(MetadataFields(c), num) == MetadataSlot(c, num)
    ensures Rising(RefFields(ref)) && Numbered(RefFields(ref), num) == RefSlot(ref, num)
  {
    hide InOrder, Numbered;
    InOrderExact(MessageLayout(m), 47, num);
    InOrderExact(MetadataLayout(c), 5, num);
    InOrderExact(RefLayout(ref), 3, num);
  }

  // ---------- readers ----------

  function SetMessage(m: ChatMessage, f: Field): ChatMessage {
    match (f.num, f.wire)
    case (1, 2) => m.(content := f.raw)
    case (2, 0) => m.(role := ToInt32(f.uvar))
    case (13, 2) => m.(messageId := f.raw)
    case (32, 2) => m.(summaryId := f.raw)
    case (47, 0) => m.(chatModeEnum := ToInt32(f.uvar))
    case _ => m
  }

  function SetMetadata(m: RequestMetadata, f: Field): RequestMetadata {
    match (f.num, f.wire)
    case (1, 2) => m.(os := f.raw)
    case (2, 2) => m.(arch := f.raw)
    case (3, 2) => m.(version := f.raw)
    case (4, 2) => m.(path := f.raw)
    case (5, 2) => m.(timestamp := f.raw)
    case _ => m
  }

  function SetRef(m: MessageIdRef, f: Field): MessageIdRef {
    match (f.num, f.wire)
    case (1, 2) => m.(messageId := f.raw)
    case (2, 2) => m.(summaryId := f.raw)
    case (3, 0) => m.(role := ToInt32(f.uvar))
    case _ => m
  }

  function SetName(name: Bytes, f: Field): Bytes {
    if f.num == 1 && f.wire == 2 then f.raw else name
  }

  /** A message read field by field into `empty`; None when its bytes do not parse. */
  function Read<M>(put: (M, Field) -> M, empty: M, data: Bytes): Option<M> {
    var fs := Parse(data);
    if fs.Ok? then Some(Fold(put, empty, fs.value)) else None
  }

  function OrElse<M>(m: Option<M>, default: M): M {
    if m.Some? then m.value else default
  }

  /** A request as a reader sees it, with the settings sub-messages it carries. */
  datatype Seen = Seen(request: ChatRequest, settings: seq<Bytes>)

  function SetRequest(s: Seen, f: Field): Seen {
    var r := s.request;
    match (f.num, f.wire)
    case (1, 2) => s.(request := r.(messages := r.messages + [OrElse(Read(SetMessage, NO_MESSAGE, f.raw), NO_MESSAGE)]))
    case (2, 0) => s.(request := r.(unknown2 := ToInt32(f.uvar)))
    case (3, 2) => s.(request := r.(instruction := OrElse(Read(SetName, [], f.raw), [])))
    case (4, 0) => s.(request := r.(unknown4 := ToInt32(f.uvar)))
    case (5, 2) => s.(request := r.(modelName := OrElse(Read(SetName, [], f.raw), [])))
    case (8, 2) => s.(request := r.(webTool := f.raw))
    case (13, 0) => s.(request := r.(unknown13 := ToInt32(f.uvar)))
    case (15, 2) => s.(settings := s.settings + [f.raw])
    case (19, 0) => s.(request := r.(unknown19 := ToInt32(f.uvar)))
    case (23, 2) => s.(request := r.(conversationId := f.raw))
    case (26, 2) => s.(request := r.(metadata := Read(SetMetadata, NO_METADATA, f.raw)))
    case (27, 0) => s.(request := r.(unknown27 := ToInt32(f.uvar)))
    case (30, 2) => s.(request := r.(messageIds := r.messageIds + [OrElse(Read(SetRef, NO_REF, f.raw), NO_REF)]))
    case (35, 0) => s.(request := r.(largeContext := ToInt32(f.uvar)))
    case (38, 0) => s.(request := r.(unknown38 := ToInt32(f.uvar)))
    case (46, 0) => s.(request := r.(chatModeEnum := ToInt32(f.uvar)))
    case (47, 2) => s.(request := r.(unknown47 := f.raw))
    case (48, 0) => s.(request := r.(unknown48 := ToInt32(f.uvar)))
    case (49, 0) => s.(request := r.(unknown49 := ToInt32(f.uvar)))
    case (51, 0) => s.(request := r.(unknown51 := ToInt32(f.uvar)))
    case (53, 0) => s.(request := r.(unknown53 := ToInt32(f.uvar)))
    case (54, 2) => s.(request := r.(chatMode := f.raw))
    case _ => s
  }

  const UNSEEN := Seen(NO_REQUEST, [])

  function ReadRequest(data: Bytes): Option<Seen> {
    Read(SetRequest, UNSEEN, data)
  }

  /** The requests of an envelope; EncodeStreamUnifiedChatRequest writes exactly one. */
  function SetEnvelope(s: seq<Option<Seen>>, f: Field): seq<Option<Seen>> {
    if f.num == 1 && f.wire == 2 then s + [ReadRequest(f.raw)] else s
  }

  function ReadEnvelope(data: Bytes): Option<seq<Option<Seen>>> {
    Read(SetEnvelope, [], data)
  }

  // ---------- what writing one field does to the layout and the reader ----------

  /** A kind of message: how a reader takes up its fields, and its layout. */
  datatype Format<!M> = Format(put: (M, Field) -> M, empty: M, layout: Layout)

  /** `b` holds the fields up to number `last` and reads as `m`. */
  ghost predicate Written<M>(f: Format<M>, b: Bytes, last: nat, m: M) {
    var fs := InOrder(f.layout, last);
    Parse(b) == Ok(fs) && Fold(f.put, f.empty, fs) == m
  }

  /** After number `last` comes number `num`. */
  ghost predicate Follows(layout: Layout, last: nat, num: nat) {
    last < num && forall n: nat :: last < n < num ==> layout(n) == []
  }

  lemma {:induction false} InOrderSkips(layout: Layout, last: nat, num: nat)
    requires Follows(layout, last, num)
    ensures InOrder(layout, num) == InOrder(layout, last) + layout(num)
    decreases num
  {
    if last < num - 1 {
      InOrderSkips(layout, last, num - 1);
      assert InOrder(layout, last) + [] == InOrder(layout, last);
    }
  }

  lemma NothingWritten<M>(f: Format<M>)
    ensures Written(f, [], 0, f.empty)
  {
  }

  lemma WriteNext<M>(f: Format<M>, m: M, b: Bytes, last: nat, num: nat, b': Bytes)
    requires Written(f, b, last, m) && Follows(f.layout, last, num)
    requires Parse(b') == Ok(InOrder(f.layout, last) + f.layout(num))
    ensures Written(f, b', num, Fold(f.put, m, f.layout(num)))
  {
    hide Parse, Fold;
    InOrderSkips(f.layout, last, num);
    FoldAppend(f.put, f.empty, InOrder(f.layout, last), f.layout(num));
  }

  lemma WriteString<M>(f: Format<M>, m: M, b: Bytes, last: nat, num: nat, s: Bytes)
    requires Written(f, b, last, m) && Follows(f.layout, last, num) && f.layout(num) == BytesFields(num, s)
    requires num < MAX_FIELD && |s| < TWO_64
    ensures Written(f, AppendString(b, num, s), num, if s == [] then m else f.put(m, Field(num, 2, 0, s)))
  {
    hide Parse, AppendString, Follows, InOrder;
    AppendStringParses(b, InOrder(f.layout, last), num, s);
    WriteNext(f, m, b, last, num, AppendString(b, num, s));
    FoldOne(f.put, m, Field(num, 2, 0, s));
  }

  lemma WriteSub<M>(f: Format<M>, m: M, b: Bytes, last: nat, num: nat, s: Bytes)
    requires Written(f, b, last, m) && Follows(f.layout, last, num) && f.layout(num) == BytesFields(num, s)
    requires num < MAX_FIELD && |s| < TWO_64
    ensures Written(f, AppendMessage(b, num, Grown(s)), num, if s == [] then m else f.put(m, Field(num, 2, 0, s)))
  {
    hide Parse, AppendMessage, Follows, InOrder;
    AppendMessageParses(b, InOrder(f.layout, last), num, s);
    WriteNext(f, m, b, last, num, AppendMessage(b, num, Grown(s)));
    FoldOne(f.put, m, Field(num, 2, 0, s));
  }

  lemma WriteInt32<M>(f: Format<M>, m: M, b: Bytes, last: nat, num: nat, v: int32)
    requires Written(f, b, last, m) && Follows(f.layout, last, num) && f.layout(num) == Int32Fields(num, v)
    requires num < MAX_FIELD
    ensures Written(f, AppendInt32(b, num, v), num, if v == 0 then m else f.put(m, Field(num, 0, ToUint32(v), [])))
    ensures ToInt32(ToUint32(v)) == v
  {
    hide Parse, AppendInt32, Follows, InOrder;
    Int32RoundTrip(v);
    AppendInt32Parses(b, InOrder(f.layout, last), num, v);
    WriteNext(f, m, b, last, num, AppendInt32(b, num, v));
    FoldOne(f.put, m, Field(num, 0, ToUint32(v), []));
  }

  // ---------- round trips of the sub-messages ----------

  /**
   * A message parses to exactly the fields of its layout, reads back as that
   * message, and is nothing exactly when all its fields are default.
   */
  lemma MessageRoundTrip(m: ChatMessage)
    requires |EncodeMessage(m)| < TWO_64
    ensures Parse(EncodeMessage(m)) == Ok(MessageFields(m))
    ensures Read(SetMessage, NO_MESSAGE, EncodeMessage(m)) == Some(m)
    ensures EncodeMessage(m) == [] <==> m == NO_MESSAGE
  {
    hide Parse, Fold, InOrder, Written, AppendString, AppendInt32, BytesFields, Int32Fields, ToInt32, ToUint32;
    var f := Format(SetMessage, NO_MESSAGE, MessageLayout(m));
    NothingWritten(f);
    var b0, m0 := [], NO_MESSAGE;
    WriteString(f, m0, b0, 0, 1, m.content);
    var b1, m1 := AppendString(b0, 1, m.content), m0.(content := m.content);
    WriteInt32(f, m1, b1, 1, 2, m.role);
    var b2, m2 := AppendInt32(b1, 2, m.role), m1.(role := m.role);
    WriteString(f, m2, b2, 2, 13, m.messageId);
    var b3, m3 := AppendString(b2, 13, m.messageId), m2.(messageId := m.messageId);
    WriteString(f, m3, b3, 13, 32, m.summaryId);
    var b4, m4 := AppendString(b3, 32, m.summaryId), m3.(summaryId := m.summaryId);
    WriteInt32(f, m4, b4, 32, 47, m.chatModeEnum);
    WrittenReads(f, EncodeMessage(m), 47, m);
    ReadEmpty(SetMessage, NO_MESSAGE);
    EmptyEncodesToNothing();
  }

  lemma WrittenReads<M>(f: Format<M>, b: Bytes, last: nat, m: M)
    requires Written(f, b, last, m)
    ensures Parse(b) == Ok(InOrder(f.layout, last)) && Read(f.put, f.empty, b) == Some(m)
  {
  }

  lemma ReadEmpty<M>(put: (M, Field) -> M, empty: M)
    ensures Read(put, empty, []) == Some(empty)
  {
  }

  lemma EmptyEncodesToNothing()
    ensures EncodeMessage(NO_MESSAGE) == []
    ensures EncodeRef(NO_REF) == [] && EncodeInstruction([]) == []
    ensures EncodeMetadata(Some(NO_METADATA)) == []
  {
  }

  /** The same for an entry of the id list. */
  lemma RefRoundTrip(m: MessageIdRef)
    requires |EncodeRef(m)| < TWO_64
    ensures Parse(EncodeRef(m)) == Ok(RefFields(m))
    ensures Read(SetRef, NO_REF, EncodeRef(m)) == Some(m)
    ensures EncodeRef(m) == [] <==> m == NO_REF
  {
    hide Parse, Fold, InOrder, Written, AppendString, AppendInt32, BytesFields, Int32Fields, ToInt32, ToUint32;
    var f := Format(SetRef, NO_REF, RefLayout(m));
    NothingWritten(f);
    var b0, m0 := [], NO_REF;
    WriteString(f, m0, b0, 0, 1, m.messageId);
    var b1, m1 := AppendString(b0, 1, m.messageId), m0.(messageId := m.messageId);
    WriteString(f, m1, b1, 1, 2, m.summaryId);
    var b2, m2 := AppendString(b1, 2, m.summaryId), m1.(summaryId := m.summaryId);
    WriteInt32(f, m2, b2, 2, 3, m.role);
    WrittenReads(f, EncodeRef(m), 3, m);
    ReadEmpty(SetRef, NO_REF);
    EmptyEncodesToNothing();
  }

  /** The same for the client metadata. */
  lemma MetadataRoundTrip(m: RequestMetadata)
    requires |EncodeMetadata(Some(m))| < TWO_64
    ensures Parse(EncodeMetadata(Some(m))) == Ok(MetadataFields(m))
    ensures Read(SetMetadata, NO_METADATA, EncodeMetadata(Some(m))) == Some(m)
    ensures EncodeMetadata(Some(m)) == [] <==> m == NO_METADATA
  {
    hide Parse, Fold, InOrder, Written, AppendString, BytesFields;
    var f := Format(SetMetadata, NO_METADATA, MetadataLayout(m));
    NothingWritten(f);
    var b0, m0 := [], NO_METADATA;
    WriteString(f, m0, b0, 0, 1, m.os);
    var b1, m1 := AppendString(b0, 1, m.os), m0.(os := m.os);
    WriteString(f, m1, b1, 1, 2, m.arch);
    var b2, m2 := AppendString(b1, 2, m.arch), m1.(arch := m.arch);
    WriteString(f, m2, b2, 2, 3, m.version);
    var b3, m3 := AppendString(b2, 3, m.version), m2.(version := m.version);
    WriteString(f, m3, b3, 3, 4, m.path);
    var b4, m4 := AppendString(b3, 4, m.path), m3.(path := m.path);
    WriteString(f, m4, b4, 4, 5, m.timestamp);
    WrittenReads(f, EncodeMetadata(Some(m)), 5, m);
    ReadEmpty(SetMetadata, NO_METADATA);
    EmptyEncodesToNothing();
  }

  /** The model message has its name, if any, and always an empty field 4, so it is never nil. */
  lemma ModelRoundTrip(name: Bytes)
    requires |EncodeModel(name)| < TWO_64
    ensures Parse(EncodeModel(name)) == Ok(BytesFields(1, name) + [Field(4, 2, 0, [])])
    ensures Read(SetName, [], EncodeModel(name)) == Some(name) && EncodeModel(name) != []
  {
    hide Parse, AppendString, AppendBytesField;
    ParseNothing();
    AppendStringParses([], [], 1, name);
    assert [] + BytesFields(1, name) == BytesFields(1, name);
    LengthDelimitedParses(AppendString([], 1, name), BytesFields(1, name), 4, []);
    FoldAppend(SetName, [], BytesFields(1, name), [Field(4, 2, 0, [])]);
    FoldOne(SetName, name, Field(4, 2, 0, []));
    FoldOne(SetName, [], Field(1, 2, 0, name));
  }

  /** An instruction message has its text alone. */
  lemma InstructionRoundTrip(s: Bytes)
    requires |EncodeInstruction(s)| < TWO_64
    ensures Parse(EncodeInstruction(s)) == Ok(BytesFields(1, s))
    ensures Read(SetName, [], EncodeInstruction(s)) == Some(s) && (s != [] ==> EncodeInstruction(s) != [])
  {
    hide Parse, AppendString;
    ParseNothing();
    AppendStringParses([], [], 1, s);
    assert [] + BytesFields(1, s) == BytesFields(1, s);
    FoldOne(SetName, [], Field(1, 2, 0, s));
  }

  lemma TwoEmptyFields()
    ensures AppendBytesField(AppendBytesField([], 1, []), 2, []) == [10, 0, 18, 0]
  {
  }

  /** The fixed settings sub-message: its name, two present-but-empty messages and two ones. */
  lemma CursorSettingFields()
    ensures CursorSetting() != []
    ensures Parse(CursorSetting()) == Ok([Field(1, 2, 0, CURSOR_SETTING_NAME), Field(3, 2, 0, []),
      Field(6, 2, 0, [10, 0, 18, 0]), Field(8, 0, 1, []), Field(9, 0, 1, [])])
  {
    hide Parse, AppendString, AppendBytesField, AppendInt32;
    TwoEmptyFields();
    ParseNothing();
    var b0 := AppendString([], 1, CURSOR_SETTING_NAME);
    var b1 := AppendBytesField(b0, 3, []);
    var b2 := AppendMessage(b1, 6, Some([10, 0, 18, 0]));
    var b3 := AppendInt32(b2, 8, 1);
    var f0 := [Field(1, 2, 0, CURSOR_SETTING_NAME)];
    assert [] + BytesFields(1, CURSOR_SETTING_NAME) == f0;
    AppendStringParses([], [], 1, CURSOR_SETTING_NAME);
    LengthDelimitedParses(b0, f0, 3, []);
    var f1 := f0 + [Field(3, 2, 0, [])];
    LengthDelimitedParses(b1, f1, 6, [10, 0, 18, 0]);
    var f2 := f1 + [Field(6, 2, 0, [10, 0, 18, 0])];
    AppendInt32Parses(b2, f2, 8, 1);
    var f3 := f2 + [Field(8, 0, 1, [])];
    AppendInt32Parses(b3, f3, 9, 1);
    assert CursorSetting() == AppendInt32(b3, 9, 1);
    assert f3 + [Field(9, 0, 1, [])] == [Field(1, 2, 0, CURSOR_SETTING_NAME), Field(3, 2, 0, []),
      Field(6, 2, 0, [10, 0, 18, 0]), Field(8, 0, 1, []), Field(9, 0, 1, [])];
  }

  // ---------- the request ----------

  /** `s` without the elements equal to `x`. */
  function Without<T(==)>(s: seq<T>, x: T): seq<T> {
    if s == [] then [] else (if s[0] == x then [] else [s[0]]) + Without(s[1..], x)
  }

  /** What survives of a request on the wire: all-default sub-messages vanish, as their encoding is nil. */
  function Normal(r: ChatRequest): ChatRequest {
    r.(messages := Without(r.messages, NO_MESSAGE),
       messageIds := Without(r.messageIds, NO_REF),
       metadata := if r.metadata == Some(NO_METADATA) then None else r.metadata)
  }

  lemma {:induction false} AppendAllSize<T>(b: Bytes, num: nat, encode: T -> Bytes, ms: seq<T>)
    ensures forall m :: m in ms ==> |encode(m)| <= |AppendAll(b, num, encode, ms)|
    decreases |ms|
  {
    hide AppendMessage;
    if ms != [] {
      AppendAllSize(AppendMessage(b, num, Grown(encode(ms[0]))), num, encode, ms[1..]);
      assert forall m :: m in ms ==> m == ms[0] || m in ms[1..];
    }
  }

  lemma SubmessagesCons<T>(fs: seq<Field>, num: nat, encode: T -> Bytes, ms: seq<T>)
    requires ms != []
    ensures fs + Submessages(num, encode, ms) == fs + BytesFields(num, encode(ms[0])) + Submessages(num, encode, ms[1..])
  {
    hide BytesFields;
  }

  lemma {:induction false} AppendAllParses<T>(b: Bytes, fs: seq<Field>, num: nat, encode: T -> Bytes, ms: seq<T>)
    requires Parse(b) == Ok(fs) && num < MAX_FIELD && |AppendAll(b, num, encode, ms)| < TWO_64
    ensures Parse(AppendAll(b, num, encode, ms)) == Ok(fs + Submessages(num, encode, ms))
    decreases |ms|
  {
    hide Parse, Submessages, AppendMessage, BytesFields;
    if ms != [] {
      var data := encode(ms[0]);
      AppendMessageParses(b, fs, num, data);
      AppendAllParses(AppendMessage(b, num, Grown(data)), fs + BytesFields(num, data), num, encode, ms[1..]);
      SubmessagesCons(fs, num, encode, ms);
    } else {
      NoSubmessages(num, encode);
      assert fs + [] == fs;
    }
  }

  lemma NoSubmessages<T>(num: nat, encode: T -> Bytes)
    ensures Submessages(num, encode, []) == []
  {
  }

  lemma FoldSub<M>(put: (M, Field) -> M, m: M, num: nat, s: Bytes, rest: seq<Field>)
    ensures Fold(put, m, BytesFields(num, s) + rest) == Fold(put, if s == [] then m else put(m, Field(num, 2, 0, s)), rest)
  {
    FoldAppend(put, m, BytesFields(num, s), rest);
    FoldOne(put, m, Field(num, 2, 0, s));
  }

  lemma SetSubmessage(s: Seen, raw: Bytes)
    ensures SetRequest(s, Field(1, 2, 0, raw)) == s.(request := s.request.(messages :=
      s.request.messages + [OrElse(Read(SetMessage, NO_MESSAGE, raw), NO_MESSAGE)]))
    ensures SetRequest(s, Field(30, 2, 0, raw)) == s.(request := s.request.(messageIds :=
      s.request.messageIds + [OrElse(Read(SetRef, NO_REF, raw), NO_REF)]))
  {
    hide Read, OrElse;
  }

  lemma {:induction false} FoldMessages(s: Seen, ms: seq<ChatMessage>)
    requires forall m :: m in ms ==> |EncodeMessage(m)| < TWO_64
    ensures Fold(SetRequest, s, Submessages(1, EncodeMessage, ms))
         == s.(request := s.request.(messages := s.request.messages + Without(ms, NO_MESSAGE)))
    decreases |ms|
  {
    hide EncodeMessage, MessageFields, Parse, Read, SetRequest, BytesFields;
    if ms == [] {
      assert s.request.messages + [] == s.request.messages;
    } else {
      var m := ms[0];
      FoldSub(SetRequest, s, 1, EncodeMessage(m), Submessages(1, EncodeMessage, ms[1..]));
      MessageRoundTrip(m);
      SetSubmessage(s, EncodeMessage(m));
      var s' := if m == NO_MESSAGE then s else s.(request := s.request.(messages := s.request.messages + [m]));
      FoldMessages(s', ms[1..]);
      assert s'.request.messages + Without(ms[1..], NO_MESSAGE) == s.request.messages + Without(ms, NO_MESSAGE);
    }
  }

  lemma {:induction false} FoldRefs(s: Seen, refs: seq<MessageIdRef>)
    requires forall m :: m in refs ==> |EncodeRef(m)| < TWO_64
    ensures Fold(SetRequest, s, Submessages(30, EncodeRef, refs))
         == s.(request := s.request.(messageIds := s.request.messageIds + Without(refs, NO_REF)))
    decreases |refs|
  {
    hide EncodeRef, RefFields, Parse, Read, SetRequest, BytesFields;
    if refs == [] {
      assert s.request.messageIds + [] == s.request.messageIds;
    } else {
      var m := refs[0];
      FoldSub(SetRequest, s, 30, EncodeRef(m), Submessages(30, EncodeRef, refs[1..]));
      RefRoundTrip(m);
      SetSubmessage(s, EncodeRef(m));
      var s' := if m == NO_REF then s else s.(request := s.request.(messageIds := s.request.messageIds + [m]));
      FoldRefs(s', refs[1..]);
      assert s'.request.messageIds + Without(refs[1..], NO_REF) == s.request.messageIds + Without(refs, NO_REF);
    }
  }

  lemma Present(num: nat, s: Bytes)
    requires s != []
    ensures BytesFields(num, s) == [Field(num, 2, 0, s)]
  {
  }

  function RequestFormat(r: ChatRequest): Format<Seen> {
    Format(SetRequest, UNSEEN, RequestLayout(r))
  }

  /** The reader's state after the first part of `r`, after the second, and after the third. */
  function SeenPrompt(r: ChatRequest): Seen {
    var n := Normal(r);
    Seen(NO_REQUEST.(messages := n.messages, unknown2 := n.unknown2, instruction := n.instruction,
                     unknown4 := n.unknown4, modelName := n.modelName), [])
  }

  function SeenHead(r: ChatRequest): Seen {
    var n := Normal(r);
    var seen := SeenPrompt(r);
    Seen(seen.request.(webTool := n.webTool, unknown13 := n.unknown13, unknown19 := n.unknown19,
                       conversationId := n.conversationId, metadata := n.metadata),
         [CursorSetting()])
  }

  function SeenBody(r: ChatRequest): Seen {
    var n := Normal(r);
    var seen := SeenHead(r);
    seen.(request := seen.request.(unknown27 := n.unknown27, messageIds := n.messageIds, largeContext := n.largeContext,
                                   unknown38 := n.unknown38, chatModeEnum := n.chatModeEnum))
  }

  lemma NilMetadata()
    ensures EncodeMetadata(None) == []
  {
  }

  predicate RequestNumber(num: nat) {
    num in {1, 2, 3, 4, 5, 8, 13, 15, 19, 23, 26, 27, 30, 35, 38, 46, 47, 48, 49, 51, 53, 54}
  }

  lemma UnusedNumber(r: ChatRequest, num: nat)
    requires !RequestNumber(num)
    ensures RequestLayout(r)(num) == []
  {
  }

  /** The numbers a request uses, in steps from one to the next. */
  lemma RequestSteps(r: ChatRequest)
    ensures var l := RequestLayout(r);
      && Follows(l, 0, 1) && Follows(l, 1, 2) && Follows(l, 2, 3) && Follows(l, 3, 4) && Follows(l, 4, 5)
      && Follows(l, 5, 8) && Follows(l, 8, 13) && Follows(l, 13, 15) && Follows(l, 15, 19) && Follows(l, 19, 23)
      && Follows(l, 23, 26) && Follows(l, 26, 27) && Follows(l, 27, 30) && Follows(l, 30, 35) && Follows(l, 35, 38)
      && Follows(l, 38, 46) && Follows(l, 46, 47) && Follows(l, 47, 48) && Follows(l, 48, 49) && Follows(l, 49, 51)
      && Follows(l, 51, 53) && Follows(l, 53, 54)
  {
    hide RequestSlot, RequestLayout;
    forall num | !RequestNumber(num) ensures RequestLayout(r)(num) == [] {
      UnusedNumber(r, num);
    }
  }

  lemma WriteMessages(r: ChatRequest)
    requires |AppendAll([], 1, EncodeMessage, r.messages)| < TWO_64
    ensures Written(RequestFormat(r), AppendAll([], 1, EncodeMessage, r.messages), 1,
                    UNSEEN.(request := NO_REQUEST.(messages := Without(r.messages, NO_MESSAGE))))
  {
    hide Parse, Fold, Submessages, AppendAll, Without;
    var f := RequestFormat(r);
    NothingWritten(f);
    AppendAllParses([], [], 1, EncodeMessage, r.messages);
    AppendAllSize([], 1, EncodeMessage, r.messages);
    FoldMessages(UNSEEN, r.messages);
    WriteNext(f, UNSEEN, [], 0, 1, AppendAll([], 1, EncodeMessage, r.messages));
    assert [] + Without(r.messages, NO_MESSAGE) == Without(r.messages, NO_MESSAGE);
  }

  lemma WriteRefs(r: ChatRequest, s: Seen, b: Bytes)
    requires Written(RequestFormat(r), b, 27, s) && s.request.messageIds == []
    requires |AppendAll(b, 30, EncodeRef, r.messageIds)| < TWO_64
    ensures Written(RequestFormat(r), AppendAll(b, 30, EncodeRef, r.messageIds), 30,
                    s.(request := s.request.(messageIds := Without(r.messageIds, NO_REF))))
  {
    hide Parse, Fold, Submessages, AppendAll, Without, InOrder;
    var f := RequestFormat(r);
    AppendAllParses(b, InOrder(f.layout, 27), 30, EncodeRef, r.messageIds);
    AppendAllSize(b, 30, EncodeRef, r.messageIds);
    FoldRefs(s, r.messageIds);
    WriteNext(f, s, b, 27, 30, AppendAll(b, 30, EncodeRef, r.messageIds));
    assert [] + Without(r.messageIds, NO_REF) == Without(r.messageIds, NO_REF);
  }

  lemma WriteInstruction(r: ChatRequest, s: Seen, b: Bytes)
    requires Written(RequestFormat(r), b, 2, s) && s.request.instruction == []
    requires r.instruction != [] ==> |EncodeInstruction(r.instruction)| < TWO_64
    ensures Written(RequestFormat(r),
                    if r.instruction != [] then AppendMessage(b, 3, Grown(EncodeInstruction(r.instruction))) else b, 3,
                    s.(request := s.request.(instruction := r.instruction)))
  {
    hide Follows, Parse, Read, InOrder, Written, AppendMessage, BytesFields;
    RequestSteps(r);
    EmptyEncodesToNothing();
    InstructionRoundTrip(r.instruction);
    hide EncodeInstruction;
    WriteSub(RequestFormat(r), s, b, 2, 3, EncodeInstruction(r.instruction));
  }

  lemma WritePrompt(r: ChatRequest)
    requires |EncodeRequestPrompt(r)| < TWO_64
    ensures Written(RequestFormat(r), EncodeRequestPrompt(r), 5, SeenPrompt(r))
  {
    hide Follows, Parse, Read, Fold, InOrder, Written, Submessages, AppendAll, AppendString, AppendInt32, AppendMessage, BytesFields,
      Int32Fields, CursorSetting, EncodeModel, EncodeInstruction, EncodeMetadata, Without, ToInt32, ToUint32;
    RequestSteps(r);
    var f := RequestFormat(r);
    var b0 := AppendAll([], 1, EncodeMessage, r.messages);
    var b1 := AppendInt32(b0, 2, r.unknown2);
    var b2 := if r.instruction != [] then AppendMessage(b1, 3, Grown(EncodeInstruction(r.instruction))) else b1;
    var b3 := AppendInt32(b2, 4, r.unknown4);
    var b4 := AppendMessage(b3, 5, Grown(EncodeModel(r.modelName)));
    var s0 := UNSEEN.(request := NO_REQUEST.(messages := Without(r.messages, NO_MESSAGE)));
    assert Written(f, b0, 1, s0) by {
      NothingWritten(f);
      WriteMessages(r);
    }
    var s1 := s0.(request := s0.request.(unknown2 := r.unknown2));
    assert Written(f, b1, 2, s1) by { WriteInt32(f, s0, b0, 1, 2, r.unknown2); }
    var s2 := s1.(request := s1.request.(instruction := r.instruction));
    assert Written(f, b2, 3, s2) by {
      WriteInstruction(r, s1, b1);
    }
    var s3 := s2.(request := s2.request.(unknown4 := r.unknown4));
    assert Written(f, b3, 4, s3) by { WriteInt32(f, s2, b2, 3, 4, r.unknown4); }
    var s4 := s3.(request := s3.request.(modelName := r.modelName));
    assert Written(f, b4, 5, s4) by {
      ModelRoundTrip(r.modelName);
      Present(5, EncodeModel(r.modelName));
      WriteSub(f, s3, b3, 4, 5, EncodeModel(r.modelName));
    }
    assert EncodeRequestPrompt(r) == b4;
  }

  lemma WriteSettings(r: ChatRequest, s: Seen, b: Bytes)
    requires Written(RequestFormat(r), b, 13, s) && s.settings == [] && |CursorSetting()| < TWO_64
    ensures Written(RequestFormat(r), AppendMessage(b, 15, Grown(CursorSetting())), 15, s.(settings := [CursorSetting()]))
  {
    hide Follows, Parse, InOrder, Written, AppendMessage, BytesFields, CursorSetting;
    RequestSteps(r);
    CursorSettingFields();
    Present(15, CursorSetting());
    WriteSub(RequestFormat(r), s, b, 13, 15, CursorSetting());
    assert s.settings + [CursorSetting()] == [CursorSetting()];
  }

  lemma WriteHead(r: ChatRequest)
    requires |EncodeRequestHead(r)| < TWO_64
    ensures Written(RequestFormat(r), EncodeRequestHead(r), 26, SeenHead(r))
  {
    hide Follows, Parse, Read, Fold, InOrder, Written, Submessages, AppendAll, AppendString, AppendInt32, AppendMessage, BytesFields,
      Int32Fields, CursorSetting, EncodeModel, EncodeInstruction, EncodeMetadata, EncodeRequestPrompt, Without, ToInt32, ToUint32;
    RequestSteps(r);
    var f := RequestFormat(r);
    var b0 := EncodeRequestPrompt(r);
    var b1 := AppendString(b0, 8, r.webTool);
    var b2 := AppendInt32(b1, 13, r.unknown13);
    var b3 := AppendMessage(b2, 15, Grown(CursorSetting()));
    var b4 := AppendInt32(b3, 19, r.unknown19);
    var b5 := AppendString(b4, 23, r.conversationId);
    var b6 := AppendMessage(b5, 26, Grown(EncodeMetadata(r.metadata)));
    var s0 := SeenPrompt(r);
    assert Written(f, b0, 5, s0) by { WritePrompt(r); }
    var s1 := s0.(request := s0.request.(webTool := r.webTool));
    assert Written(f, b1, 8, s1) by { WriteString(f, s0, b0, 5, 8, r.webTool); }
    var s2 := s1.(request := s1.request.(unknown13 := r.unknown13));
    assert Written(f, b2, 13, s2) by { WriteInt32(f, s1, b1, 8, 13, r.unknown13); }
    var s3 := s2.(settings := [CursorSetting()]);
    assert Written(f, b3, 15, s3) by {
      WriteSettings(r, s2, b2);
    }
    var s4 := s3.(request := s3.request.(unknown19 := r.unknown19));
    assert Written(f, b4, 19, s4) by { WriteInt32(f, s3, b3, 15, 19, r.unknown19); }
    var s5 := s4.(request := s4.request.(conversationId := r.conversationId));
    assert Written(f, b5, 23, s5) by { WriteString(f, s4, b4, 19, 23, r.conversationId); }
    var s6 := s5.(request := s5.request.(metadata := Normal(r).metadata));
    assert Written(f, b6, 26, s6) by {
      if r.metadata.Some? {
        MetadataRoundTrip(r.metadata.value);
      } else {
        NilMetadata();
      }
      WriteSub(f, s5, b5, 23, 26, EncodeMetadata(r.metadata));
    }
    assert EncodeRequestHead(r) == b6;
  }

  lemma WriteBody(r: ChatRequest)
    requires |EncodeRequestBody(r)| < TWO_64
    ensures Written(RequestFormat(r), EncodeRequestBody(r), 46, SeenBody(r))
  {
    hide Follows, Parse, Read, Fold, InOrder, Written, Submessages, AppendAll, AppendString, AppendInt32, AppendMessage, BytesFields,
      Int32Fields, CursorSetting, EncodeModel, EncodeInstruction, EncodeMetadata, EncodeRequestHead, Without, ToInt32, ToUint32;
    RequestSteps(r);
    var f := RequestFormat(r);
    var b0 := EncodeRequestHead(r);
    var b1 := AppendInt32(b0, 27, r.unknown27);
    var b2 := AppendAll(b1, 30, EncodeRef, r.messageIds);
    var b3 := AppendInt32(b2, 35, r.largeContext);
    var b4 := AppendInt32(b3, 38, r.unknown38);
    var b5 := AppendInt32(b4, 46, r.chatModeEnum);
    var s0 := SeenHead(r);
    assert Written(f, b0, 26, s0) by { WriteHead(r); }
    var s1 := s0.(request := s0.request.(unknown27 := r.unknown27));
    assert Written(f, b1, 27, s1) by { WriteInt32(f, s0, b0, 26, 27, r.unknown27); }
    var s2 := s1.(request := s1.request.(messageIds := Without(r.messageIds, NO_REF)));
    assert Written(f, b2, 30, s2) by {
      WriteRefs(r, s1, b1);
    }
    var s3 := s2.(request := s2.request.(largeContext := r.largeContext));
    assert Written(f, b3, 35, s3) by { WriteInt32(f, s2, b2, 30, 35, r.largeContext); }
    var s4 := s3.(request := s3.request.(unknown38 := r.unknown38));
    assert Written(f, b4, 38, s4) by { WriteInt32(f, s3, b3, 35, 38, r.unknown38); }
    var s5 := s4.(request := s4.request.(chatModeEnum := r.chatModeEnum));
    assert Written(f, b5, 46, s5) by { WriteInt32(f, s4, b4, 38, 46, r.chatModeEnum); }
    assert EncodeRequestBody(r) == b5;
  }

  /** The reader's state after the last part, read from the state `s` on. */
  function SeenTail(s: Seen, r: ChatRequest): Seen {
    s.(request := s.request.(unknown47 := r.unknown47, unknown48 := r.unknown48, unknown49 := r.unknown49,
                             unknown51 := r.unknown51, unknown53 := r.unknown53, chatMode := r.chatMode))
  }

  /** Nothing of the last part was read yet. */
  predicate TailUnread(q: ChatRequest) {
    q.unknown47 == [] && q.unknown48 == 0 && q.unknown49 == 0 && q.unknown51 == 0 && q.unknown53 == 0 && q.chatMode == []
  }

  lemma SeenTailIs(r: ChatRequest)
    ensures TailUnread(SeenBody(r).request)
    ensures SeenTail(SeenBody(r), r) == Seen(Normal(r), [CursorSetting()])
  {
    hide CursorSetting, Without;
  }

  lemma TailSlots(r: ChatRequest)
    ensures var l := RequestLayout(r);
      && l(47) == BytesFields(47, r.unknown47) && l(48) == Int32Fields(48, r.unknown48) && l(49) == Int32Fields(49, r.unknown49)
      && l(51) == Int32Fields(51, r.unknown51) && l(53) == Int32Fields(53, r.unknown53) && l(54) == BytesFields(54, r.chatMode)
  {
    hide BytesFields, Int32Fields;
  }

  lemma SetTail(s: Seen, b: Bytes, u: nat)
    ensures SetRequest(s, Field(47, 2, 0, b)) == s.(request := s.request.(unknown47 := b))
    ensures SetRequest(s, Field(48, 0, u, [])) == s.(request := s.request.(unknown48 := ToInt32(u)))
    ensures SetRequest(s, Field(49, 0, u, [])) == s.(request := s.request.(unknown49 := ToInt32(u)))
    ensures SetRequest(s, Field(51, 0, u, [])) == s.(request := s.request.(unknown51 := ToInt32(u)))
    ensures SetRequest(s, Field(53, 0, u, [])) == s.(request := s.request.(unknown53 := ToInt32(u)))
    ensures SetRequest(s, Field(54, 2, 0, b)) == s.(request := s.request.(chatMode := b))
  {
    hide ToInt32;
  }

  lemma BodyIsShorter(r: ChatRequest)
    ensures |EncodeRequestBody(r)| <= |EncodeRequest(r)|
  {
    hide EncodeRequestBody, AppendString, AppendInt32;
  }

  lemma WriteTail(r: ChatRequest, s0: Seen)
    requires |EncodeRequest(r)| < TWO_64 && TailUnread(s0.request)
    requires Written(RequestFormat(r), EncodeRequestBody(r), 46, s0)
    ensures Written(RequestFormat(r), EncodeRequest(r), 54, SeenTail(s0, r))
  {
    hide Follows, Parse, Read, Fold, InOrder, Written, Submessages, AppendAll, AppendString, AppendInt32, AppendMessage, BytesFields,
      Int32Fields, CursorSetting, EncodeModel, EncodeInstruction, EncodeMetadata, EncodeRequestBody, Normal, Without, ToInt32, ToUint32;
    RequestSteps(r);
    TailSlots(r);
    hide SetRequest, RequestSlot, RequestLayout;
    var f := RequestFormat(r);
    var b0 := EncodeRequestBody(r);
    var b1 := AppendString(b0, 47, r.unknown47);
    var b2 := AppendInt32(b1, 48, r.unknown48);
    var b3 := AppendInt32(b2, 49, r.unknown49);
    var b4 := AppendInt32(b3, 51, r.unknown51);
    var b5 := AppendInt32(b4, 53, r.unknown53);
    var b6 := AppendString(b5, 54, r.chatMode);
    var s1 := s0.(request := s0.request.(unknown47 := r.unknown47));
    assert Written(f, b1, 47, s1) by {
      SetTail(s0, r.unknown47, 0);
      WriteString(f, s0, b0, 46, 47, r.unknown47);
    }
    var s2 := s1.(request := s1.request.(unknown48 := r.unknown48));
    assert Written(f, b2, 48, s2) by {
      SetTail(s1, [], ToUint32(r.unknown48));
      WriteInt32(f, s1, b1, 47, 48, r.unknown48);
    }
    var s3 := s2.(request := s2.request.(unknown49 := r.unknown49));
    assert Written(f, b3, 49, s3) by {
      SetTail(s2, [], ToUint32(r.unknown49));
      WriteInt32(f, s2, b2, 48, 49, r.unknown49);
    }
    var s4 := s3.(request := s3.request.(unknown51 := r.unknown51));
    assert Written(f, b4, 51, s4) by {
      SetTail(s3, [], ToUint32(r.unknown51));
      WriteInt32(f, s3, b3, 49, 51, r.unknown51);
    }
    var s5 := s4.(request := s4.request.(unknown53 := r.unknown53));
    assert Written(f, b5, 53, s5) by {
      SetTail(s4, [], ToUint32(r.unknown53));
      WriteInt32(f, s4, b4, 51, 53, r.unknown53);
    }
    var s6 := s5.(request := s5.request.(chatMode := r.chatMode));
    assert Written(f, b6, 54, s6) by {
      SetTail(s5, r.chatMode, 0);
      WriteString(f, s5, b5, 53, 54, r.chatMode);
    }
    assert EncodeRequest(r) == b6;
  }

  /**
   * An encoded request parses to exactly the fields of its layout. Reading
   * them gives the request back, up to the all-default sub-messages that
   * vanish, with exactly one settings sub-message beside it.
   * The only premise is that the encoding is a possible Go slice.
   */
  lemma RequestRoundTrip(r: ChatRequest)
    requires |EncodeRequest(r)| < TWO_64
    ensures Parse(EncodeRequest(r)) == Ok(RequestFields(r))
    ensures ReadRequest(EncodeRequest(r)) == Some(Seen(Normal(r), [CursorSetting()]))
  {
    BodyIsShorter(r);
    hide EncodeRequest, EncodeRequestBody, SeenBody, SeenTail, TailUnread, Written, Parse, Read, Normal, CursorSetting;
    WriteBody(r);
    SeenTailIs(r);
    WriteTail(r, SeenBody(r));
    WrittenReads(RequestFormat(r), EncodeRequest(r), 54, SeenTail(SeenBody(r), r));
  }

  // ---------- what the encoding identifies ----------

  lemma {:induction false} AppendWithout<T>(b: Bytes, num: nat, encode: T -> Bytes, ms: seq<T>, x: T)
    requires encode(x) == []
    ensures AppendAll(b, num, encode, Without(ms, x)) == AppendAll(b, num, encode, ms)
    decreases |ms|
  {
    if ms != [] {
      AppendWithout(AppendMessage(b, num, Grown(encode(ms[0]))), num, encode, ms[1..], x);
      if ms[0] == x {
        assert [] + Without(ms[1..], x) == Without(ms[1..], x);
      } else {
        assert Without(ms, x)[1..] == Without(ms[1..], x);
      }
    }
  }

  lemma NormalEncodesAlike(r: ChatRequest)
    ensures EncodeRequest(Normal(r)) == EncodeRequest(r)
  {
    EmptyEncodesToNothing();
    hide EncodeMessage, EncodeRef, AppendAll, AppendString, AppendInt32, AppendBytesField, CursorSetting,
      EncodeModel, EncodeInstruction, Without;
    AppendWithout([], 1, EncodeMessage, r.messages, NO_MESSAGE);
    var n := Normal(r);
    assert EncodeMetadata(n.metadata) == EncodeMetadata(r.metadata) by {
      EmptyEncodesToNothing();
      NilMetadata();
    }
    hide EncodeMetadata;
    assert EncodeRequestHead(n) == EncodeRequestHead(r);
    AppendWithout(AppendInt32(EncodeRequestHead(r), 27, r.unknown27), 30, EncodeRef, r.messageIds, NO_REF);
    hide EncodeRequestHead;
    assert EncodeRequestBody(n) == EncodeRequestBody(r);
  }

  /** Two requests have the same bytes exactly when they differ only in all-default sub-messages. */
  lemma SameBytesIffSameRequest(r: ChatRequest, q: ChatRequest)
    requires |EncodeRequest(r)| < TWO_64 && |EncodeRequest(q)| < TWO_64
    ensures EncodeRequest(r) == EncodeRequest(q) <==> Normal(r) == Normal(q)
  {
    hide EncodeRequest, ReadRequest, Normal;
    RequestRoundTrip(r);
    RequestRoundTrip(q);
    NormalEncodesAlike(r);
    NormalEncodesAlike(q);
  }

  /** Only a nil request is refused; any other comes back from its envelope, whole and alone. */
  lemma EnvelopeRoundTrip(r: Option<ChatRequest>)
    requires r.Some? ==> |EncodeStreamUnifiedChatRequest(r).value| < TWO_64
    ensures EncodeStreamUnifiedChatRequest(r).None? <==> r.None?
    ensures r.Some? ==>
      Parse(EncodeStreamUnifiedChatRequest(r).value) == Ok([Field(1, 2, 0, EncodeRequest(r.value))])
    ensures r.Some? ==>
      ReadEnvelope(EncodeStreamUnifiedChatRequest(r).value) == Some([Some(Seen(Normal(r.value), [CursorSetting()]))])
  {
    hide EncodeRequest, ReadRequest, Normal, Parse, AppendMessage, CursorSetting;
    if r.Some? {
      var data := EncodeRequest(r.value);
      RequestNotEmpty(r.value);
      RequestRoundTrip(r.value);
      ParseNothing();
      AppendMessageParses([], [], 1, data);
      assert [] + BytesFields(1, data) == [Field(1, 2, 0, data)];
      FoldOne(SetEnvelope, [], Field(1, 2, 0, data));
      assert [] + [ReadRequest(data)] == [ReadRequest(data)];
    }
  }

  lemma RequestNotEmpty(r: ChatRequest)
    ensures EncodeRequest(r) != []
  {
    hide AppendString, AppendInt32, AppendAll, AppendBytesField, EncodeMetadata;
  }
}
