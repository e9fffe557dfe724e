/**
 * The two readers of a framed response stream: ParseStreamChunk
 * (pkg/cursor/body.go), which scans a buffer, and readFrames
 * (pkg/cursor/server.go), which pulls from a reader and calls back per chunk.
 * They agree on exactly the streams that Readable describes.
 */
module Frames {
  import opened Basics
  import opened Envelopes
  import opened Responses

  /** maxFrameSize, 32 MiB. */
  const MAX_FRAME_SIZE := 0x200_0000

  datatype StreamError = StreamError(code: Bytes, reason: Bytes, title: Bytes, detail: Bytes)

  /** The JSON of an end-of-stream frame. */
  datatype Debug = Debug(error: Bytes, title: Bytes, detail: Bytes)
  datatype EndError = EndError(code: Bytes, message: Bytes, details: seq<Debug>)
  datatype EndFrame = EndFrame(error: Option<EndError>)

  /** The library calls the readers rely on: gunzip, "is all white space", and the JSON decoder. */
  datatype Codec = Codec(
    gunzip: Bytes -> Option<Bytes>, blank: Bytes -> bool, unmarshal: Bytes -> Option<EndFrame>)

  datatype ReadError =
    | Transport
    | Eof
    | UnexpectedEof
    | FrameTooLarge(size: nat)
    | BadGzip
    | Stream(error: StreamError)

  function DecodeFramePayload(codec: Codec, flag: byte, data: Bytes): Option<Bytes> {
    if !Compressed(flag) || data == [] then Some(data) else codec.gunzip(data)
  }

  /** The error an end-of-stream frame carries, or None when the stream finished normally. */
  function ParseEndStream(codec: Codec, payload: Bytes): Option<StreamError> {
    if codec.blank(payload) then None
    else match codec.unmarshal(payload)
      case None => Some(StreamError([], [], [], payload))
      case Some(frame) =>
        match frame.error
        case None => None
        case Some(e) =>
          if e.details == [] then Some(StreamError(e.code, [], [], e.message))
          else
            var d := e.details[0];
            Some(StreamError(e.code, d.error, d.title, if d.detail != [] then d.detail else e.message))
  }

  // ---------- readFrames ----------

  datatype ReadResult = ReadResult(calls: seq<Chunk>, err: Option<ReadError>)

  /** An io.Reader: the bytes still to come, and whether they end in a transport failure rather than EOF. */
  class Reader {
    var rest: Bytes
    const fault: bool

    constructor (bytes: Bytes, fault: bool)
      ensures rest == bytes && this.fault == fault
    {
      rest := bytes;
      this.fault := fault;
    }

    /** io.ReadFull into a buffer of n bytes. */
    method ReadFull(n: nat) returns (data: Bytes, err: Option<ReadError>)
      requires n > 0
      modifies this
      ensures |old(rest)| >= n ==> err == None && data == old(rest)[..n] && rest == old(rest)[n..]
      ensures |old(rest)| < n ==> err == Some(Short(old(rest), fault)) && rest == []
    {
      if |rest| >= n {
        data, err := rest[..n], None;
        rest := rest[n..];
      } else {
        data, err := rest, Some(Short(rest, fault));
        rest := [];
      }
    }
  }

  function Short(got: Bytes, fault: bool): ReadError {
    if fault then Transport else if got == [] then Eof else UnexpectedEof
  }

  function Before(c: Chunk, r: ReadResult): ReadResult {
    r.(calls := [c] + r.calls)
  }

  /** The callbacks readFrames makes on the stream `s`, and the error it returns. */
  function ReadAll(codec: Codec, s: Bytes, fault: bool): ReadResult
    decreases |s|
  {
    if |s| < 5 then ReadResult([], if fault then Some(Transport) else None)
    else
      var flag, n := s[0], Uint32(s[1..5]);
      if n > MAX_FRAME_SIZE then ReadResult([], Some(FrameTooLarge(n)))
      else if |s| - 5 < n then ReadResult([], Some(Short(s[5..], fault)))
      else match DecodeFramePayload(codec, flag, s[5..5 + n])
        case None => ReadResult([], Some(BadGzip))
        case Some(payload) =>
          if EndStream(flag) then
            var e := ParseEndStream(codec, payload);
            ReadResult([], if e.Some? then Some(Stream(e.value)) else None)
          else
            var rest := ReadAll(codec, s[5 + n..], fault);
            if payload == [] || DecodeResponse(payload).Err? then rest
            else Before(DecodeResponse(payload).value, rest)
  }

  function After(calls: seq<Chunk>, r: ReadResult): ReadResult {
    ReadResult(calls + r.calls, r.err)
  }

  lemma AfterBefore(calls: seq<Chunk>, c: Chunk, r: ReadResult)
    ensures After(calls, Before(c, r)) == After(calls + [c], r)
  {
    assert calls + ([c] + r.calls) == calls + [c] + r.calls;
  }

  /** readFrames; the callback's arguments are collected in `calls`. */
  method ReadFrames(body: Reader, codec: Codec) returns (calls: seq<Chunk>, err: Option<ReadError>)
    modifies body
    ensures ReadResult(calls, err) == ReadAll(codec, old(body.rest), body.fault)
  {
    hide DecodeResponse, Uint32, ParseEndStream, DecodeFramePayload;
    calls := [];
    assert After([], ReadAll(codec, body.rest, body.fault)) == ReadAll(codec, body.rest, body.fault);
    while true
      invariant After(calls, ReadAll(codec, body.rest, body.fault)) == ReadAll(codec, old(body.rest), body.fault)
      decreases |body.rest|
    {
      ghost var s := body.rest;
      assert calls + [] == calls;
      var header;
      header, err := body.ReadFull(5);
      if err.Some? {
        if err.value == Eof || err.value == UnexpectedEof {
          return calls, None;
        }
        return calls, err;
      }
      assert header[0] == s[0] && header[1..] == s[1..5];
      var flag := header[0];
      var rawLen := Uint32(header[1..]);
      if rawLen > MAX_FRAME_SIZE {
        return calls, Some(FrameTooLarge(rawLen));
      }
      var data: Bytes := [];
      if rawLen > 0 {
        data, err := body.ReadFull(rawLen);
        if err.Some? {
          return calls, err;
        }
      }
      assert data == s[5..5 + rawLen] && body.rest == s[5 + rawLen..];
      var payload := DecodeFramePayload(codec, flag, data);
      if payload.None? {
        return calls, Some(BadGzip);
      }
      if EndStream(flag) {
        var e := ParseEndStream(codec, payload.value);
        return calls, if e.Some? then Some(Stream(e.value)) else None;
      }
      if |payload.value| == 0 {
        continue;
      }
      var chunk := DecodeStreamUnifiedChatResponse(payload.value);
      if chunk.Err? {
        continue;
      }
      AfterBefore(calls, chunk.value, ReadAll(codec, body.rest, body.fault));
      calls := calls + [chunk.value];
    }
  }

  // ---------- ParseStreamChunk ----------

  datatype Parsed = Parsed(thinking: Bytes, text: Bytes, err: Option<StreamError>)

  const SILENCE := Parsed([], [], None)

  function Add(c: Chunk, p: Parsed): Parsed {
    p.(thinking := c.thinking + p.thinking, text := c.content + p.text)
  }

  /** What ParseStreamChunk returns for the bytes `s`. */
  function ParseAllFrames(codec: Codec, s: Bytes): Parsed
    decreases |s|
  {
    if |s| < 5 || |s| - 5 < Uint32(s[1..5]) then SILENCE
    else
      var flag, n := s[0], Uint32(s[1..5]);
      var payload := DecodeFramePayload(codec, flag, s[5..5 + n]);
      var rest := s[5 + n..];
      if payload.None? then ParseAllFrames(codec, rest)
      else if EndStream(flag) then
        var e := ParseEndStream(codec, payload.value);
        if e.Some? then Parsed([], [], e) else ParseAllFrames(codec, rest)
      else match DecodeResponse(payload.value)
        case Err(_) => ParseAllFrames(codec, rest)
        case Ok(c) => Add(c, ParseAllFrames(codec, rest))
  }

  function Extend(thinking: Bytes, text: Bytes, p: Parsed): Parsed {
    Parsed(thinking + p.thinking, text + p.text, p.err)
  }

  method ParseStreamChunk(chunk: Bytes, codec: Codec) returns (thinking: Bytes, text: Bytes, err: Option<StreamError>)
    ensures Parsed(thinking, text, err) == ParseAllFrames(codec, chunk)
  {
    hide DecodeResponse, Uint32, ParseEndStream, DecodeFramePayload;
    thinking, text := [], [];
    var i := 0;
    assert chunk[0..] == chunk;
    ghost var whole := ParseAllFrames(codec, chunk);
    assert Extend([], [], whole) == whole;
    while i + 5 <= |chunk|
      invariant 0 <= i <= |chunk|
      invariant Extend(thinking, text, ParseAllFrames(codec, chunk[i..])) == whole
      decreases |chunk| - i
    {
      ghost var s := chunk[i..];
      assert chunk[i + 1..i + 5] == s[1..5] && chunk[i] == s[0];
      assert thinking + [] == thinking && text + [] == text;
      var flag := chunk[i];
      var dataLen := Uint32(chunk[i + 1..i + 5]);
      if i + 5 + dataLen > |chunk| {
        return thinking, text, None;
      }
      var data := chunk[i + 5..i + 5 + dataLen];
      assert data == s[5..5 + dataLen];
      i := i + 5 + dataLen;
      assert chunk[i..] == s[5 + dataLen..];
      var payload := DecodeFramePayload(codec, flag, data);
      if payload.None? {
        continue;
      }
      if EndStream(flag) {
        var e := ParseEndStream(codec, payload.value);
        if e.Some? {
          return thinking, text, e;
        }
        continue;
      }
      var resp := DecodeStreamUnifiedChatResponse(payload.value);
      if resp.Ok? {
        ExtendAdd(thinking, text, resp.value, ParseAllFrames(codec, chunk[i..]));
        thinking := thinking + resp.value.thinking;
        text := text + resp.value.content;
      }
    }
    assert thinking + [] == thinking && text + [] == text;
    return thinking, text, None;
  }

  lemma ExtendAdd(thinking: Bytes, text: Bytes, c: Chunk, p: Parsed)
    ensures Extend(thinking, text, Add(c, p)) == Extend(thinking + c.thinking, text + c.content, p)
  {
    assert thinking + (c.thinking + p.thinking) == thinking + c.thinking + p.thinking;
    assert text + (c.content + p.text) == text + c.content + p.text;
  }

  // ---------- agreement ----------

  /** The thinking of several chunks, one after the other, and their text. */
  function ThinkingOf(cs: seq<Chunk>): Bytes {
    if cs == [] then [] else cs[0].thinking + ThinkingOf(cs[1..])
  }

  function TextOf(cs: seq<Chunk>): Bytes {
    if cs == [] then [] else cs[0].content + TextOf(cs[1..])
  }

  /** The same thinking, the same text and the same error, if any. */
  ghost predicate Agree(r: ReadResult, p: Parsed) {
    && ThinkingOf(r.calls) == p.thinking && TextOf(r.calls) == p.text
    && r.err == if p.err.Some? then Some(Stream(p.err.value)) else None
  }

  /** No frame of `s` holds text or an error. */
  ghost predicate Silent(codec: Codec, s: Bytes)
    decreases |s|
  {
    if |s| < 5 || |s| - 5 < Uint32(s[1..5]) then true
    else
      var flag, n := s[0], Uint32(s[1..5]);
      var payload := DecodeFramePayload(codec, flag, s[5..5 + n]);
      && (payload.Some? ==>
            if EndStream(flag) then ParseEndStream(codec, payload.value).None?
            else DecodeResponse(payload.value).Err? || DecodeResponse(payload.value).value == EMPTY)
      && Silent(codec, s[5 + n..])
  }

  /**
   * Up to the first end-of-stream frame, or the end if there is none, every
   * frame is whole, within the size limit and gunzips; the stream does not
   * break off by a transport failure before that point; and an end-of-stream
   * frame either carries an error or is followed by nothing of substance.
   */
  ghost predicate Readable(codec: Codec, s: Bytes, fault: bool)
    decreases |s|
  {
    if |s| < 5 then !fault
    else
      var flag, n := s[0], Uint32(s[1..5]);
      && n <= MAX_FRAME_SIZE && n <= |s| - 5
      && var payload := DecodeFramePayload(codec, flag, s[5..5 + n]);
      && payload.Some?
      && if EndStream(flag) then ParseEndStream(codec, payload.value).Some? || Silent(codec, s[5 + n..])
         else Readable(codec, s[5 + n..], fault)
  }

  lemma Cancel(a: Bytes, x: Bytes, y: Bytes)
    ensures a + x == a + y <==> x == y
  {
    if a + x == a + y {
      assert x == (a + x)[|a|..];
      assert y == (a + y)[|a|..];
    }
  }

  lemma EmptySum(a: Bytes, b: Bytes)
    ensures a + b == [] <==> a == [] && b == []
  {
    assert |a + b| == |a| + |b|;
  }

  lemma {:induction false} SilentExact(codec: Codec, s: Bytes)
    ensures Silent(codec, s) <==> ParseAllFrames(codec, s) == SILENCE
    decreases |s|
  {
    hide DecodeResponse, Uint32, ParseEndStream, DecodeFramePayload;
    if |s| >= 5 && |s| - 5 >= Uint32(s[1..5]) {
      var flag, n := s[0], Uint32(s[1..5]);
      SilentExact(codec, s[5 + n..]);
      var payload := DecodeFramePayload(codec, flag, s[5..5 + n]);
      if payload.Some? && !EndStream(flag) && DecodeResponse(payload.value).Ok? {
        var c := DecodeResponse(payload.value).value;
        var p := ParseAllFrames(codec, s[5 + n..]);
        EmptySum(c.thinking, p.thinking);
        EmptySum(c.content, p.text);
      }
    }
  }

  lemma AgreeBefore(c: Chunk, r: ReadResult, p: Parsed)
    ensures Agree(Before(c, r), Add(c, p)) <==> Agree(r, p)
  {
    assert ([c] + r.calls)[1..] == r.calls;
    Cancel(c.thinking, ThinkingOf(r.calls), p.thinking);
    Cancel(c.content, TextOf(r.calls), p.text);
  }

  lemma AddEmpty(p: Parsed)
    ensures Add(EMPTY, p) == p
  {
    assert [] + p.thinking == p.thinking && [] + p.text == p.text;
  }

  /** On every byte stream whatever, the two readers give the same answer exactly when it is Readable. */
  lemma {:induction false} ReadersAgree(codec: Codec, s: Bytes, fault: bool)
    ensures Agree(ReadAll(codec, s, fault), ParseAllFrames(codec, s)) <==> Readable(codec, s, fault)
    decreases |s|
  {
    hide DecodeResponse, Uint32, ParseEndStream, DecodeFramePayload;
    if |s| >= 5 {
      var flag, n := s[0], Uint32(s[1..5]);
      if n <= MAX_FRAME_SIZE && n <= |s| - 5 {
        var payload := DecodeFramePayload(codec, flag, s[5..5 + n]);
        var rest := s[5 + n..];
        if payload.Some? {
          if EndStream(flag) {
            SilentExact(codec, rest);
          } else {
            ReadersAgree(codec, rest, fault);
            var r, p := ReadAll(codec, rest, fault), ParseAllFrames(codec, rest);
            if payload.value == [] {
              EmptyPayload();
              AddEmpty(p);
            } else if DecodeResponse(payload.value).Ok? {
              AgreeBefore(DecodeResponse(payload.value).value, r, p);
            }
          }
        }
      }
    }
  }

  /** A frame cut short is an error to readFrames and nothing at all to ParseStreamChunk. */
  lemma ReadersDiffer(codec: Codec)
    ensures var s := [0, 0, 0, 0, 1];
      && ReadAll(codec, s, false).err == Some(Eof)
      && ParseAllFrames(codec, s) == SILENCE
      && !Agree(ReadAll(codec, s, false), ParseAllFrames(codec, s)) && !Readable(codec, s, false)
  {
    var s: Bytes := [0, 0, 0, 0, 1];
    assert s[1..5] == [0, 0, 0, 1];
    assert Uint32(s[1..5]) == 1;
    ReadersAgree(codec, s, false);
  }

  lemma EmptyPayload()
    ensures DecodeResponse([]) == Ok(EMPTY)
  {
  }

  // ---------- whole streams ----------

  datatype Frame = Frame(flag: byte, data: Bytes)

  function StreamOf(frames: seq<Frame>): Bytes {
    if frames == [] then [] else Envelope(frames[0].flag, frames[0].data) + StreamOf(frames[1..])
  }

  /** Complete frames within the limit, all of which decompress, and none behind an end-of-stream frame. */
  ghost predicate WellFormed(codec: Codec, frames: seq<Frame>) {
    && (forall i :: 0 <= i < |frames| ==>
          |frames[i].data| <= MAX_FRAME_SIZE && DecodeFramePayload(codec, frames[i].flag, frames[i].data).Some?)
    && (forall i :: 0 <= i < |frames| - 1 ==> !EndStream(frames[i].flag))
  }

  /** On a well-formed stream of frames both readers report the same thinking, text and error. */
  lemma {:induction false} WellFormedStreamsAgree(codec: Codec, frames: seq<Frame>)
    requires WellFormed(codec, frames)
    ensures Agree(ReadAll(codec, StreamOf(frames), false), ParseAllFrames(codec, StreamOf(frames)))
  {
    WellFormedReadable(codec, frames);
    ReadersAgree(codec, StreamOf(frames), false);
  }

  lemma {:induction false} WellFormedReadable(codec: Codec, frames: seq<Frame>)
    requires WellFormed(codec, frames)
    ensures Readable(codec, StreamOf(frames), false)
    decreases |frames|
  {
    hide ParseEndStream, DecodeFramePayload, Envelope, Silent, EndStream;
    if frames != [] {
      var f, rest := frames[0], frames[1..];
      ReadableCons(codec, f, StreamOf(rest));
      hide Readable;
      if EndStream(f.flag) {
        assert rest == [];
        NothingIsSilent(codec);
      } else {
        assert WellFormed(codec, rest) by {
          assert forall i :: 0 <= i < |rest| ==> rest[i] == frames[i + 1];
        }
        WellFormedReadable(codec, rest);
      }
    }
  }

  lemma ReadableCons(codec: Codec, f: Frame, rest: Bytes)
    requires |f.data| <= MAX_FRAME_SIZE && DecodeFramePayload(codec, f.flag, f.data).Some?
    ensures if EndStream(f.flag) then Silent(codec, rest) ==> Readable(codec, Envelope(f.flag, f.data) + rest, false)
            else Readable(codec, Envelope(f.flag, f.data) + rest, false) <==> Readable(codec, rest, false)
  {
    EnvelopeParts(f.flag, f.data, rest);
    hide Uint32, PutUint32, ParseEndStream, DecodeFramePayload, Envelope, Silent, EndStream;
  }

  lemma NothingIsSilent(codec: Codec)
    ensures StreamOf([]) == [] && Silent(codec, [])
  {
  }

  // ---------- what a stream says ----------

  /**
   * `b` is a whole frame within the size limit. The low bits of its flag are 0
   * or 1 for a frame with text and 2 or 3 for the end of the stream; when they
   * are odd the data are gzipped, unless there are none.
   */
  ghost predicate HoldsAs(codec: Codec, b: Bytes, end: bool, payload: Bytes, flag: byte, data: Bytes) {
    && IsFrame(b, flag, data) && |data| <= 33_554_432
    && (if end then flag % 4 == 2 || flag % 4 == 3 else flag % 4 == 0 || flag % 4 == 1)
    && (if flag % 2 == 1 && data != [] then codec.gunzip(data) == Some(payload) else payload == data)
  }

  ghost predicate Holds(codec: Codec, b: Bytes, end: bool, payload: Bytes) {
    exists flag, data :: HoldsAs(codec, b, end, payload, flag, data)
  }

  /** The chunks that the payloads decode to; one that is empty or does not decode has none. */
  function ChunksIn(payloads: seq<Bytes>): seq<Chunk> {
    if payloads == [] then []
    else
      (if payloads[0] == [] || DecodeResponse(payloads[0]).Err? then [] else [DecodeResponse(payloads[0]).value])
      + ChunksIn(payloads[1..])
  }

  lemma FlagBits(flag: byte)
    ensures EndStream(flag) <==> flag % 4 == 2 || flag % 4 == 3
    ensures Compressed(flag) <==> flag % 2 == 1
  {
  }

  lemma TextFrameReads(codec: Codec, b: Bytes, payload: Bytes, rest: Bytes, fault: bool)
    requires Holds(codec, b, false, payload)
    ensures ReadAll(codec, b + rest, fault) == After(ChunksIn([payload]), ReadAll(codec, rest, fault))
    ensures var cs := ChunksIn([payload]);
      ParseAllFrames(codec, b + rest) == Extend(ThinkingOf(cs), TextOf(cs), ParseAllFrames(codec, rest))
  {
    hide DecodeResponse, Uint32, ParseEndStream, IsFrame, EndStream, Compressed;
    var flag, data :| HoldsAs(codec, b, false, payload, flag, data);
    FlagBits(flag);
    FrameParts(b, flag, data, rest);
    var r, p := ReadAll(codec, rest, fault), ParseAllFrames(codec, rest);
    assert [] + r.calls == r.calls && [] + p.thinking == p.thinking && [] + p.text == p.text;
    OneChunk(payload);
    if payload == [] {
      EmptyPayload();
    }
  }

  lemma OneChunk(payload: Bytes)
    ensures ChunksIn([payload])
         == if payload == [] || DecodeResponse(payload).Err? then [] else [DecodeResponse(payload).value]
    ensures forall c :: ThinkingOf([c]) == c.thinking && TextOf([c]) == c.content
    ensures ThinkingOf([]) == [] && TextOf([]) == []
  {
    hide DecodeResponse;
    assert [payload][1..] == [];
    forall c: Chunk ensures ThinkingOf([c]) == c.thinking && TextOf([c]) == c.content {
      assert [c][1..] == [];
    }
  }

  lemma {:induction false} TextsAppend(a: seq<Chunk>, b: seq<Chunk>)
    ensures ThinkingOf(a + b) == ThinkingOf(a) + ThinkingOf(b) && TextOf(a + b) == TextOf(a) + TextOf(b)
  {
    if a == [] {
      assert a + b == b;
    } else {
      assert (a + b)[1..] == a[1..] + b;
      TextsAppend(a[1..], b);
    }
  }

  /** Frames with text, none of them the end: both readers go on behind them with their chunks read. */
  lemma {:induction false} TextFramesRead(codec: Codec, frames: seq<Bytes>, payloads: seq<Bytes>, rest: Bytes, fault: bool)
    requires |frames| == |payloads| && forall i :: 0 <= i < |frames| ==> Holds(codec, frames[i], false, payloads[i])
    ensures ReadAll(codec, Flatten(frames) + rest, fault) == After(ChunksIn(payloads), ReadAll(codec, rest, fault))
    ensures var cs := ChunksIn(payloads);
      ParseAllFrames(codec, Flatten(frames) + rest) == Extend(ThinkingOf(cs), TextOf(cs), ParseAllFrames(codec, rest))
    decreases |frames|
  {
    hide ReadAll, ParseAllFrames, Holds, DecodeResponse;
    if frames == [] {
      assert Flatten(frames) + rest == rest;
      var r, p := ReadAll(codec, rest, fault), ParseAllFrames(codec, rest);
      assert [] + r.calls == r.calls && [] + p.thinking == p.thinking && [] + p.text == p.text;
    } else {
      var more := Flatten(frames[1..]) + rest;
      assert Flatten(frames) + rest == frames[0] + more;
      TextFrameReads(codec, frames[0], payloads[0], more, fault);
      TextFramesRead(codec, frames[1..], payloads[1..], rest, fault);
      var first, others := ChunksIn([payloads[0]]), ChunksIn(payloads[1..]);
      ChunksCons(payloads);
      hide ChunksIn, After, Extend;
      AfterTwice(first, others, ReadAll(codec, rest, fault));
      ExtendTwice(first, others, ParseAllFrames(codec, rest));
    }
  }

  lemma ChunksCons(payloads: seq<Bytes>)
    requires payloads != []
    ensures ChunksIn(payloads) == ChunksIn([payloads[0]]) + ChunksIn(payloads[1..])
  {
    hide DecodeResponse;
    OneChunk(payloads[0]);
  }

  lemma AfterTwice(a: seq<Chunk>, b: seq<Chunk>, r: ReadResult)
    ensures After(a, After(b, r)) == After(a + b, r)
  {
    assert a + (b + r.calls) == a + b + r.calls;
  }

  lemma ExtendTwice(a: seq<Chunk>, b: seq<Chunk>, p: Parsed)
    ensures Extend(ThinkingOf(a), TextOf(a), Extend(ThinkingOf(b), TextOf(b), p))
         == Extend(ThinkingOf(a + b), TextOf(a + b), p)
  {
    TextsAppend(a, b);
    hide ThinkingOf, TextOf;
    assert ThinkingOf(a) + (ThinkingOf(b) + p.thinking) == ThinkingOf(a) + ThinkingOf(b) + p.thinking;
    assert TextOf(a) + (TextOf(b) + p.text) == TextOf(a) + TextOf(b) + p.text;
  }

  /**
   * What the last frame tells: nothing when its payload is blank or has no
   * error; the payload itself when it is not the JSON expected; and else the
   * code of the error, with reason and title of its first detail if it has any,
   * and as detail the first detail's own text or, failing that, the message.
   */
  ghost predicate Tells(codec: Codec, payload: Bytes, e: Option<StreamError>) {
    if codec.blank(payload) then e == None
    else match codec.unmarshal(payload)
      case None => e == Some(StreamError([], [], [], payload))
      case Some(EndFrame(None)) => e == None
      case Some(EndFrame(Some(EndError(code, message, details)))) =>
        && e.Some? && e.value.code == code
        && (details == [] ==> e.value.reason == [] && e.value.title == [] && e.value.detail == message)
        && (details != [] ==> e.value.reason == details[0].error && e.value.title == details[0].title)
        && (details != [] && details[0].detail == [] ==> e.value.detail == message)
        && (details != [] && details[0].detail != [] ==> e.value.detail == details[0].detail)
  }

  /**
   * Frames with text and then the end frame: readFrames calls back with their
   * chunks in order and returns what the end frame tells, whatever follows it;
   * ParseStreamChunk returns their thinking and text and the same error.
   */
  lemma EndFrameExact(
    codec: Codec, frames: seq<Bytes>, payloads: seq<Bytes>, end: Bytes, last: Bytes, more: Bytes, fault: bool)
    returns (e: Option<StreamError>)
    requires |frames| == |payloads| && forall i :: 0 <= i < |frames| ==> Holds(codec, frames[i], false, payloads[i])
    requires Holds(codec, end, true, last)
    ensures Tells(codec, last, e)
    ensures ReadAll(codec, Flatten(frames) + (end + more), fault)
         == ReadResult(ChunksIn(payloads), if e.Some? then Some(Stream(e.value)) else None)
    ensures var cs := ChunksIn(payloads);
      ParseAllFrames(codec, Flatten(frames) + end) == Parsed(ThinkingOf(cs), TextOf(cs), e)
  {
    hide DecodeResponse, Uint32, ParseEndStream, IsFrame, EndStream, Compressed;
    var flag, data :| HoldsAs(codec, end, true, last, flag, data);
    FlagBits(flag);
    FrameParts(end, flag, data, more);
    FrameParts(end, flag, data, []);
    assert end + [] == end;
    e := ParseEndStream(codec, last);
    EndTells(codec, last);
    var cs := ChunksIn(payloads);
    TextFramesRead(codec, frames, payloads, end + more, fault);
    TextFramesRead(codec, frames, payloads, end, fault);
    assert cs + [] == cs && ThinkingOf(cs) + [] == ThinkingOf(cs) && TextOf(cs) + [] == TextOf(cs);
  }

  lemma EndTells(codec: Codec, payload: Bytes)
    ensures Tells(codec, payload, ParseEndStream(codec, payload))
  {
  }

  /** The length a header states, its most significant byte first. */
  function StatedLength(s: Bytes): int
    requires |s| >= 5
  {
    s[1] as int * 0x100_0000 + s[2] as int * 0x1_0000 + s[3] as int * 0x100 + s[4] as int
  }

  lemma StatedExact(s: Bytes)
    requires |s| >= 5
    ensures Uint32(s[1..5]) == StatedLength(s)
  {
  }

  lemma BrokenFrame(codec: Codec, s: Bytes, fault: bool)
    ensures |s| < 5 ==> ReadAll(codec, s, fault) == ReadResult([], if fault then Some(Transport) else None)
    ensures |s| >= 5 ==>
      var r, n := ReadAll(codec, s, fault), StatedLength(s);
      && (n > 33_554_432 ==> r == ReadResult([], Some(FrameTooLarge(n))))
      && (|s| - 5 < n <= 33_554_432 ==>
            r == ReadResult([], Some(if fault then Transport else if |s| == 5 then Eof else UnexpectedEof)))
      && (0 < n <= |s| - 5 && n <= 33_554_432 && s[0] % 2 == 1 && codec.gunzip(s[5..5 + n]) == None ==>
            r == ReadResult([], Some(BadGzip)))
      && (|s| - 5 < n ==> ParseAllFrames(codec, s) == SILENCE)
  {
    hide DecodeResponse, ParseEndStream, EndStream;
    if |s| >= 5 {
      StatedExact(s);
      hide Uint32, StatedLength;
      FlagBits(s[0]);
    }
  }

  /**
   * Frames with text and then no whole frame: what readFrames reports for each
   * way a stream can break off, and the nothing ParseStreamChunk makes of it.
   */
  lemma BrokenOffExact(codec: Codec, frames: seq<Bytes>, payloads: seq<Bytes>, rest: Bytes, fault: bool)
    requires |frames| == |payloads| && forall i :: 0 <= i < |frames| ==> Holds(codec, frames[i], false, payloads[i])
    ensures |rest| < 5 ==>
      ReadAll(codec, Flatten(frames) + rest, fault)
      == ReadResult(ChunksIn(payloads), if fault then Some(Transport) else None)
    ensures |rest| >= 5 ==>
      var r, cs, n := ReadAll(codec, Flatten(frames) + rest, fault), ChunksIn(payloads), StatedLength(rest);
      && (n > 33_554_432 ==> r == ReadResult(cs, Some(FrameTooLarge(n))))
      && (|rest| - 5 < n <= 33_554_432 ==>
            r == ReadResult(cs, Some(if fault then Transport else if |rest| == 5 then Eof else UnexpectedEof)))
      && (0 < n <= |rest| - 5 && n <= 33_554_432 && rest[0] % 2 == 1 && codec.gunzip(rest[5..5 + n]) == None ==>
            r == ReadResult(cs, Some(BadGzip)))
      && (|rest| - 5 < n ==>
            ParseAllFrames(codec, Flatten(frames) + rest) == Parsed(ThinkingOf(cs), TextOf(cs), None))
  {
    TextFramesRead(codec, frames, payloads, rest, fault);
    BrokenFrame(codec, rest, fault);
    hide ReadAll, ParseAllFrames, ChunksIn, ThinkingOf, TextOf, StatedLength, Holds;
    var cs := ChunksIn(payloads);
    assert cs + [] == cs && ThinkingOf(cs) + [] == ThinkingOf(cs) && TextOf(cs) + [] == TextOf(cs);
  }
}
