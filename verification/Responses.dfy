/**
 * Decoding of stream responses (pkg/cursor/proto.go). The decoder overwrites as
 * it goes; what it promises is protobuf's "Last One Wins" over every occurrence
 * of a field, at both levels of nesting.
 */
module Responses {
  import opened Basics
  import opened Wire

  datatype Chunk = Chunk(content: Bytes, thinking: Bytes)

  const EMPTY := Chunk([], [])

  predicate Is(f: Field, num: nat) {
    f.num == num && f.wire == 2
  }

  // ---------- the decoder, as folds ----------

  function SetThinking(thinking: Bytes, f: Field): Bytes {
    if Is(f, 1) then f.raw else thinking
  }

  /** A thinking sub-message that does not parse is passed over. */
  function SetChunk(c: Chunk, f: Field): Chunk {
    if Is(f, 1) then c.(content := f.raw)
    else if Is(f, 25) then
      match Parse(f.raw)
      case Err(_) => c
      case Ok(fs) => c.(thinking := Fold(SetThinking, c.thinking, fs))
    else c
  }

  /** A message that does not parse fails the whole response. */
  function SetResponse(r: Result<Chunk, ParseError>, f: Field): Result<Chunk, ParseError> {
    if r.Err? || !Is(f, 2) then r
    else match Parse(f.raw)
      case Err(e) => Err(e)
      case Ok(fs) => Ok(Fold(SetChunk, r.value, fs))
  }

  function DecodeResponse(data: Bytes): Result<Chunk, ParseError> {
    match Parse(data)
    case Err(e) => Err(e)
    case Ok(fs) => Fold(SetResponse, Ok(EMPTY), fs)
  }

  lemma {:induction false} FoldErr(e: ParseError, fs: seq<Field>)
    ensures Fold(SetResponse, Err(e), fs) == Err(e)
  {
    if fs != [] {
      FoldErr(e, fs[1..]);
    }
  }

  method DecodeThinking(raw: Bytes, previous: Bytes) returns (thinking: Bytes)
    ensures Parse(raw).Err? ==> thinking == previous
    ensures Parse(raw).Ok? ==> thinking == Fold(SetThinking, previous, Parse(raw).value)
  {
    thinking := previous;
    var fields := ParseFields(raw);
    if fields.Err? {
      return;
    }
    var i := 0;
    while i < |fields.value|
      invariant 0 <= i <= |fields.value|
      invariant Fold(SetThinking, thinking, fields.value[i..]) == Fold(SetThinking, previous, fields.value)
    {
      var f := fields.value[i];
      if f.num == 1 && f.wire == 2 {
        thinking := f.raw;
      }
      i := i + 1;
    }
  }

  /** DecodeStreamUnifiedChatResponse: three nested loops that overwrite `out`. */
  method DecodeStreamUnifiedChatResponse(data: Bytes) returns (r: Result<Chunk, ParseError>)
    ensures r == DecodeResponse(data)
  {
    hide Parse;
    var fields := ParseFields(data);
    if fields.Err? {
      return Err(fields.error);
    }
    var out := EMPTY;
    var i := 0;
    while i < |fields.value|
      invariant 0 <= i <= |fields.value|
      invariant Fold(SetResponse, Ok(out), fields.value[i..]) == DecodeResponse(data)
    {
      var f := fields.value[i];
      i := i + 1;
      if f.num != 2 || f.wire != 2 {
        continue;
      }
      var msgFields := ParseFields(f.raw);
      if msgFields.Err? {
        FoldErr(msgFields.error, fields.value[i..]);
        return Err(msgFields.error);
      }
      ghost var before := out;
      var j := 0;
      while j < |msgFields.value|
        invariant 0 <= j <= |msgFields.value|
        invariant Fold(SetChunk, out, msgFields.value[j..]) == Fold(SetChunk, before, msgFields.value)
      {
        var mf := msgFields.value[j];
        if mf.num == 1 && mf.wire == 2 {
          out := out.(content := mf.raw);
        } else if mf.num == 25 && mf.wire == 2 {
          var thinking := DecodeThinking(mf.raw, out.thinking);
          out := out.(thinking := thinking);
        }
        j := j + 1;
      }
    }
    return Ok(out);
  }

  // ---------- what the decoder means ----------

  /** The payloads of the length-delimited fields numbered `num`, in order. */
  function Payloads(fs: seq<Field>, num: nat): seq<Bytes> {
    if fs == [] then []
    else (if Is(fs[0], num) then [fs[0].raw] else []) + Payloads(fs[1..], num)
  }

  /** The field lists of several messages run together, or the error of the first that does not parse. */
  function ParseAll(ms: seq<Bytes>): Result<seq<Field>, ParseError> {
    if ms == [] then Ok([])
    else match Parse(ms[0])
      case Err(e) => Err(e)
      case Ok(fs) => Prepend(fs, ParseAll(ms[1..]))
  }

  /** Every thinking text of several thinking sub-messages, leaving out those that do not parse. */
  function Thoughts(ms: seq<Bytes>): seq<Bytes> {
    if ms == [] then []
    else (if Parse(ms[0]).Ok? then Payloads(Parse(ms[0]).value, 1) else []) + Thoughts(ms[1..])
  }

  function LastOr(s: seq<Bytes>, default: Bytes): Bytes {
    if s == [] then default else s[|s| - 1]
  }

  lemma {:induction false} PayloadsAppend(a: seq<Field>, b: seq<Field>, num: nat)
    ensures Payloads(a + b, num) == Payloads(a, num) + Payloads(b, num)
  {
    if a == [] {
      assert a + b == b;
    } else {
      assert (a + b)[1..] == a[1..] + b;
      PayloadsAppend(a[1..], b, num);
    }
  }

  lemma {:induction false} ThoughtsAppend(a: seq<Bytes>, b: seq<Bytes>)
    ensures Thoughts(a + b) == Thoughts(a) + Thoughts(b)
  {
    hide Parse;
    if a == [] {
      assert a + b == b;
    } else {
      assert (a + b)[1..] == a[1..] + b;
      ThoughtsAppend(a[1..], b);
    }
  }

  lemma {:induction false} ParseAllAppend(a: seq<Bytes>, b: seq<Bytes>)
    ensures ParseAll(a + b) == if ParseAll(a).Ok? then Prepend(ParseAll(a).value, ParseAll(b)) else ParseAll(a)
  {
    hide Parse;
    if a == [] {
      assert a + b == b;
      PrependNothing(ParseAll(b));
    } else {
      assert (a + b)[1..] == a[1..] + b;
      ParseAllAppend(a[1..], b);
      if Parse(a[0]).Ok? && ParseAll(a[1..]).Ok? {
        PrependTwice(Parse(a[0]).value, ParseAll(a[1..]).value, ParseAll(b));
      }
    }
  }

  lemma PrependNothing(r: Result<seq<Field>, ParseError>)
    ensures Prepend([], r) == r
  {
    if r.Ok? {
      assert [] + r.value == r.value;
    }
  }

  lemma {:induction false} FoldThinking(t: Bytes, fs: seq<Field>)
    ensures Fold(SetThinking, t, fs) == LastOr(Payloads(fs, 1), t)
    decreases |fs|
  {
    if fs != [] {
      FoldThinking(SetThinking(t, fs[0]), fs[1..]);
    }
  }

  lemma {:induction false} FoldChunk(c: Chunk, fs: seq<Field>)
    ensures Fold(SetChunk, c, fs)
         == Chunk(LastOr(Payloads(fs, 1), c.content), LastOr(Thoughts(Payloads(fs, 25)), c.thinking))
    decreases |fs|
  {
    hide Parse;
    if fs != [] {
      var f, rest := fs[0], fs[1..];
      FoldChunk(SetChunk(c, f), rest);
      if Is(f, 25) {
        ThoughtsAppend([f.raw], Payloads(rest, 25));
        assert Thoughts([f.raw]) == if Parse(f.raw).Ok? then Payloads(Parse(f.raw).value, 1) else [];
        if Parse(f.raw).Ok? {
          FoldThinking(c.thinking, Parse(f.raw).value);
        }
      } else {
        assert Payloads(fs, 25) == Payloads(rest, 25);
      }
      if !Is(f, 1) {
        assert Payloads(fs, 1) == Payloads(rest, 1);
      }
    }
  }

  lemma {:induction false} FoldResponse(c: Chunk, fs: seq<Field>)
    ensures Fold(SetResponse, Ok(c), fs) == match ParseAll(Payloads(fs, 2))
      case Err(e) => Err(e)
      case Ok(ms) => Ok(Fold(SetChunk, c, ms))
    decreases |fs|
  {
    hide Parse;
    if fs != [] {
      var f, rest := fs[0], fs[1..];
      if !Is(f, 2) {
        assert Payloads(fs, 2) == Payloads(rest, 2);
        FoldResponse(c, rest);
      } else {
        assert Payloads(fs, 2)[1..] == Payloads(rest, 2);
        match Parse(f.raw) {
          case Err(e) => FoldErr(e, rest);
          case Ok(ms) =>
            var c' := Fold(SetChunk, c, ms);
            FoldResponse(c', rest);
            if ParseAll(Payloads(rest, 2)).Ok? {
              FoldAppend(SetChunk, c, ms, ParseAll(Payloads(rest, 2)).value);
            }
        }
      }
    }
  }

  /** The fields of all the messages in a response. */
  function MessageFields(data: Bytes): Result<seq<Field>, ParseError> {
    match Parse(data)
    case Err(e) => Err(e)
    case Ok(fs) => ParseAll(Payloads(fs, 2))
  }

  function ContentsOf(data: Bytes): seq<Bytes> {
    if MessageFields(data).Ok? then Payloads(MessageFields(data).value, 1) else []
  }

  function ThinkingsOf(data: Bytes): seq<Bytes> {
    if MessageFields(data).Ok? then Thoughts(Payloads(MessageFields(data).value, 25)) else []
  }

  /**
   * A response decodes exactly when it and every message in it parse, and then
   * each text is the last one the wire holds for it, or empty if there is none.
   */
  lemma LastOneWins(data: Bytes)
    ensures DecodeResponse(data).Ok? <==> MessageFields(data).Ok?
    ensures DecodeResponse(data).Err? ==> MessageFields(data) == Err(DecodeResponse(data).error)
    ensures DecodeResponse(data).Ok? ==>
      DecodeResponse(data).value == Chunk(LastOr(ContentsOf(data), []), LastOr(ThinkingsOf(data), []))
  {
    hide Parse;
    if Parse(data).Ok? {
      FoldResponse(EMPTY, Parse(data).value);
      if MessageFields(data).Ok? {
        FoldChunk(EMPTY, MessageFields(data).value);
      }
    }
  }

  lemma MessageFieldsAppend(a: Bytes, b: Bytes)
    requires Parse(a).Ok? && Parse(b).Ok?
    ensures MessageFields(a + b)
         == if MessageFields(a).Ok? then Prepend(MessageFields(a).value, MessageFields(b)) else MessageFields(a)
  {
    hide Parse;
    ParseAppend(a, b);
    PayloadsAppend(Parse(a).value, Parse(b).value, 2);
    ParseAllAppend(Payloads(Parse(a).value, 2), Payloads(Parse(b).value, 2));
  }

  /** Concatenating two responses merges them: each text comes from `b` if `b` sets it, and else from `a`. */
  lemma ConcatenationMerges(a: Bytes, b: Bytes)
    requires DecodeResponse(a).Ok? && DecodeResponse(b).Ok?
    ensures DecodeResponse(a + b) == Ok(Chunk(
      if ContentsOf(b) != [] then DecodeResponse(b).value.content else DecodeResponse(a).value.content,
      if ThinkingsOf(b) != [] then DecodeResponse(b).value.thinking else DecodeResponse(a).value.thinking))
  {
    hide Parse, DecodeResponse;
    LastOneWins(a);
    LastOneWins(b);
    LastOneWins(a + b);
    MessageFieldsAppend(a, b);
    var fa, fb := MessageFields(a).value, MessageFields(b).value;
    PayloadsAppend(fa, fb, 1);
    PayloadsAppend(fa, fb, 25);
    ThoughtsAppend(Payloads(fa, 25), Payloads(fb, 25));
  }

  /** A record the decoder has no use for can be put anywhere between records without effect. */
  lemma UnknownOuterRecord(a: Bytes, rec: Bytes, f: Field, b: Bytes)
    requires Parse(a).Ok? && IsRecord(rec, f) && !Is(f, 2)
    ensures DecodeResponse(a + (rec + b)) == DecodeResponse(a + b)
  {
    hide Parse, DecodeResponse, IsRecord;
    ParseOne(rec, f);
    ParseAppend(rec, b);
    ParseAppend(a, rec + b);
    ParseAppend(a, b);
    LastOneWins(a + (rec + b));
    LastOneWins(a + b);
    if Parse(b).Ok? {
      var fa, fb := Parse(a).value, Parse(b).value;
      PayloadsAppend(fa, [f] + fb, 2);
      PayloadsAppend([f], fb, 2);
      PayloadsAppend(fa, fb, 2);
      assert Payloads([f], 2) == [];
      assert [] + Payloads(fb, 2) == Payloads(fb, 2);
    } else {
      DecodeBad(a + (rec + b));
      DecodeBad(a + b);
    }
  }

  lemma DecodeBad(data: Bytes)
    requires Parse(data).Err?
    ensures DecodeResponse(data) == Err(Parse(data).error)
  {
  }

  lemma UnknownField(x: seq<Field>, f: Field, y: seq<Field>, c: Chunk)
    requires !Is(f, 1) && !Is(f, 25)
    ensures Fold(SetChunk, c, x + ([f] + y)) == Fold(SetChunk, c, x + y)
  {
    FoldAppend(SetChunk, c, x, [f] + y);
    FoldAppend(SetChunk, c, x, y);
    assert ([f] + y)[1..] == y;
  }

  /** The same inside a message: a field that is neither content nor thinking has no effect there. */
  lemma UnknownInnerRecord(a: Bytes, b: Bytes, x: Bytes, rec: Bytes, f: Field, y: Bytes, long: Bytes, short: Bytes)
    requires Parse(a).Ok? && Parse(x).Ok?
    requires IsRecord(rec, f) && !Is(f, 1) && !Is(f, 25)
    requires IsRecord(long, Field(2, 2, 0, x + (rec + y))) && IsRecord(short, Field(2, 2, 0, x + y))
    ensures DecodeResponse(a + (long + b)) == DecodeResponse(a + (short + b))
  {
    hide Parse, IsRecord;
    ParseOne(rec, f);
    ParseAppend(rec, y);
    ParseAppend(x, rec + y);
    ParseAppend(x, y);
    var fl, fs := Field(2, 2, 0, x + (rec + y)), Field(2, 2, 0, x + y);
    forall c ensures SetResponse(Ok(c), fl) == SetResponse(Ok(c), fs) {
      if Parse(y).Ok? {
        UnknownField(Parse(x).value, f, Parse(y).value, c);
      }
    }
    DecodeAround(a, b, long, fl);
    DecodeAround(a, b, short, fs);
    if Parse(b).Ok? {
      var start := Fold(SetResponse, Ok(EMPTY), Parse(a).value);
      assert SetResponse(start, fl) == SetResponse(start, fs);
    }
  }

  lemma DecodeAround(a: Bytes, b: Bytes, rec: Bytes, f: Field)
    requires Parse(a).Ok? && IsRecord(rec, f)
    ensures DecodeResponse(a + (rec + b)) == if Parse(b).Err? then Err(Parse(b).error)
      else Fold(SetResponse, SetResponse(Fold(SetResponse, Ok(EMPTY), Parse(a).value), f), Parse(b).value)
  {
    hide Parse, IsRecord;
    ParseOne(rec, f);
    ParseAppend(rec, b);
    ParseAppend(a, rec + b);
    if Parse(b).Ok? {
      FoldAppend(SetResponse, Ok(EMPTY), Parse(a).value, [f] + Parse(b).value);
      assert ([f] + Parse(b).value)[1..] == Parse(b).value;
    }
  }

  // ---------- round trip ----------

  function EncodeThinking(thinking: Bytes): Bytes {
    AppendString([], 1, thinking)
  }

  function EncodeChunk(c: Chunk): Bytes {
    AppendMessage(AppendString([], 1, c.content), 25, Grown(EncodeThinking(c.thinking)))
  }

  /** A response carrying one message, written with the package's own helpers. */
  function EncodeResponse(c: Chunk): Bytes {
    AppendMessage([], 2, Grown(EncodeChunk(c)))
  }

  lemma ThinkingRoundTrip(s: Bytes)
    requires |EncodeThinking(s)| < TWO_64
    ensures Parse(EncodeThinking(s)).Ok? && Fold(SetThinking, [], Parse(EncodeThinking(s)).value) == s
  {
    hide Parse, AppendString;
    assert Parse([]) == Ok([]) by { ParseNothing(); }
    AppendStringParses([], [], 1, s);
    assert [] + BytesFields(1, s) == BytesFields(1, s);
    if s != [] {
      FoldOne(SetThinking, [], Field(1, 2, 0, s));
    }
  }

  lemma ChunkRoundTrip(c: Chunk)
    requires |EncodeChunk(c)| < TWO_64
    ensures Parse(EncodeChunk(c)).Ok? && Fold(SetChunk, EMPTY, Parse(EncodeChunk(c)).value) == c
  {
    hide Parse, AppendString, EncodeThinking;
    var b := AppendString([], 1, c.content);
    var fs := BytesFields(1, c.content);
    assert Parse(b) == Ok(fs) by {
      ParseNothing();
      AppendStringParses([], [], 1, c.content);
      assert [] + fs == fs;
    }
    var t := EncodeThinking(c.thinking);
    AppendMessageParses(b, fs, 25, t);
    ThinkingRoundTrip(c.thinking);
    FoldAppend(SetChunk, EMPTY, fs, BytesFields(25, t));
    if c.content != [] {
      FoldOne(SetChunk, EMPTY, fs[0]);
    }
    assert Fold(SetChunk, EMPTY, fs) == Chunk(c.content, []);
    if t != [] {
      FoldOne(SetChunk, Chunk(c.content, []), Field(25, 2, 0, t));
    } else {
      ParseNothing();
    }
  }

  lemma ResponseRoundTrip(c: Chunk)
    requires |EncodeResponse(c)| < TWO_64
    ensures DecodeResponse(EncodeResponse(c)) == Ok(c)
  {
    hide Parse, EncodeChunk;
    var m := EncodeChunk(c);
    ParseNothing();
    AppendMessageParses([], [], 2, m);
    ChunkRoundTrip(c);
    if m != [] {
      assert [] + BytesFields(2, m) == [Field(2, 2, 0, m)];
      FoldOne(SetResponse, Ok(EMPTY), Field(2, 2, 0, m));
    }
  }
}
