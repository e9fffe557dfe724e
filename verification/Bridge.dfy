/**
 * The OpenAI side of the bridge (pkg/cursor/server.go): the thinking tagger,
 * the streamed rendering and the collected one. Both renderings carry the same
 * text: every maximal run of thinking wrapped in one pair of tags.
 */
module Bridge {
  import opened Basics
  import opened Responses
  import opened Frames

  const OPEN_TAG: Bytes := Ascii("<thinking>\n")
  const CLOSE_TAG: Bytes := Ascii("\n</thinking>\n")

  // ---------- the tagger ----------

  function CloseText(open: bool): Bytes {
    if open then CLOSE_TAG else []
  }

  function NextOpen(open: bool, c: Chunk): bool {
    c.content == [] && (open || c.thinking != [])
  }

  function NextText(open: bool, c: Chunk): Bytes {
    (if c.thinking == [] then [] else (if open then [] else OPEN_TAG) + c.thinking)
    + (if c.content == [] then [] else CloseText(open || c.thinking != []) + c.content)
  }

  class ThinkingTagger {
    var open: bool

    constructor ()
      ensures !open
    {
      open := false;
    }

    method Next(thinking: Bytes, text: Bytes) returns (b: Bytes)
      modifies this
      ensures b == NextText(old(open), Chunk(text, thinking))
      ensures open == NextOpen(old(open), Chunk(text, thinking))
    {
      b := [];
      if thinking != [] {
        if !open {
          b := b + OPEN_TAG;
          open := true;
        }
        b := b + thinking;
      }
      if text != [] {
        var closing := Close();
        b := b + closing;
        b := b + text;
      }
    }

    /** Emits the terminator at most once: a second call finds the block closed and returns nothing. */
    method Close() returns (b: Bytes)
      modifies this
      ensures !open && b == CloseText(old(open))
    {
      if !open {
        return [];
      }
      open := false;
      return CLOSE_TAG;
    }
  }

  /** The outputs of the tagger over several calls, one per call, and its state after them. */
  function Outputs(open: bool, calls: seq<Chunk>): (r: seq<Bytes>)
    ensures |r| == |calls|
    decreases |calls|
  {
    if calls == [] then [] else [NextText(open, calls[0])] + Outputs(NextOpen(open, calls[0]), calls[1..])
  }

  function OpenAfter(open: bool, calls: seq<Chunk>): bool
    decreases |calls|
  {
    if calls == [] then open else OpenAfter(NextOpen(open, calls[0]), calls[1..])
  }

  /** Everything the tagger writes for `calls` up to and including the final close. */
  function TaggedText(open: bool, calls: seq<Chunk>): Bytes {
    Flatten(Outputs(open, calls)) + CloseText(OpenAfter(open, calls))
  }

  // ---------- what tagging means ----------

  /** A stretch of output: reasoning or normal text. */
  datatype Piece = Thinking(s: Bytes) | Text(s: Bytes)

  function PiecesOf(c: Chunk): seq<Piece> {
    (if c.thinking == [] then [] else [Thinking(c.thinking)]) + (if c.content == [] then [] else [Text(c.content)])
  }

  function Pieces(calls: seq<Chunk>): seq<Piece> {
    if calls == [] then [] else PiecesOf(calls[0]) + Pieces(calls[1..])
  }

  function Merge(p: Piece, runs: seq<Piece>): seq<Piece> {
    if runs != [] && runs[0].Thinking? == p.Thinking? then [runs[0].(s := p.s + runs[0].s)] + runs[1..]
    else [p] + runs
  }

  /** The maximal runs: neighbours of the same kind are joined. */
  function Runs(ps: seq<Piece>): seq<Piece> {
    if ps == [] then [] else Merge(ps[0], Runs(ps[1..]))
  }

  function Wrap(runs: seq<Piece>): Bytes {
    if runs == [] then []
    else (match runs[0] case Thinking(s) => OPEN_TAG + s + CLOSE_TAG case Text(s) => s) + Wrap(runs[1..])
  }

  function Plain(ps: seq<Piece>): Bytes {
    if ps == [] then [] else ps[0].s + Plain(ps[1..])
  }

  /** The tagger as it sees one piece after another, with the final close. */
  function Emit(open: bool, ps: seq<Piece>): Bytes
    decreases |ps|
  {
    if ps == [] then CloseText(open)
    else match ps[0]
      case Thinking(s) => (if open then [] else OPEN_TAG) + s + Emit(true, ps[1..])
      case Text(s) => CloseText(open) + s + Emit(false, ps[1..])
  }

  lemma EmitOne(open: bool, p: Piece, ps: seq<Piece>)
    ensures Emit(open, [p] + ps) == match p
      case Thinking(s) => (if open then [] else OPEN_TAG) + s + Emit(true, ps)
      case Text(s) => CloseText(open) + s + Emit(false, ps)
  {
    assert ([p] + ps)[1..] == ps;
  }

  lemma EmitCall(open: bool, c: Chunk, ps: seq<Piece>)
    ensures NextText(open, c) + Emit(NextOpen(open, c), ps) == Emit(open, PiecesOf(c) + ps)
  {
    hide Emit, CloseText, OPEN_TAG;
    var first := if open then [] else OPEN_TAG;
    if c.thinking == [] && c.content == [] {
      assert PiecesOf(c) + ps == ps;
    } else if c.thinking == [] {
      assert PiecesOf(c) + ps == [Text(c.content)] + ps;
      EmitOne(open, Text(c.content), ps);
    } else if c.content == [] {
      assert PiecesOf(c) + ps == [Thinking(c.thinking)] + ps;
      EmitOne(open, Thinking(c.thinking), ps);
    } else {
      var more := [Text(c.content)] + ps;
      assert PiecesOf(c) + ps == [Thinking(c.thinking)] + more;
      EmitOne(open, Thinking(c.thinking), more);
      EmitOne(true, Text(c.content), ps);
      assert first + c.thinking + (CloseText(true) + c.content) + Emit(false, ps)
          == first + c.thinking + (CloseText(true) + c.content + Emit(false, ps));
    }
  }

  lemma {:induction false} TaggedIsEmitted(open: bool, calls: seq<Chunk>)
    ensures TaggedText(open, calls) == Emit(open, Pieces(calls))
    decreases |calls|
  {
    hide OPEN_TAG, CLOSE_TAG, CloseText, NextText, NextOpen, PiecesOf;
    if calls == [] {
      assert [] + CloseText(open) == CloseText(open);
    } else {
      hide Emit, TaggedText;
      TaggedIsEmitted(NextOpen(open, calls[0]), calls[1..]);
      TaggedStep(open, calls);
      EmitCall(open, calls[0], Pieces(calls[1..]));
    }
  }

  lemma TaggedStep(open: bool, calls: seq<Chunk>)
    requires calls != []
    ensures TaggedText(open, calls) == NextText(open, calls[0]) + TaggedText(NextOpen(open, calls[0]), calls[1..])
  {
    hide CloseText, NextText, NextOpen;
    assert Outputs(open, calls)[1..] == Outputs(NextOpen(open, calls[0]), calls[1..]);
  }

  lemma {:induction false} EmittedIsWrapped(ps: seq<Piece>)
    ensures Emit(false, ps) == Wrap(Runs(ps))
    ensures Emit(true, ps) == Continue(Runs(ps))
    decreases |ps|
  {
    hide OPEN_TAG, CLOSE_TAG, Wrap, Continue, Merge;
    if ps == [] {
      WrapNothing();
    } else {
      EmittedIsWrapped(ps[1..]);
      WrapMerge(ps[0], Runs(ps[1..]));
    }
  }

  /** What is still to be written when a tag is open. */
  function Continue(runs: seq<Piece>): Bytes {
    if runs != [] && runs[0].Thinking? then runs[0].s + CLOSE_TAG + Wrap(runs[1..]) else CLOSE_TAG + Wrap(runs)
  }

  lemma WrapNothing()
    ensures Wrap([]) == [] && Continue([]) == CLOSE_TAG && CloseText(true) == CLOSE_TAG && CloseText(false) == []
  {
  }

  lemma WrapCons(p: Piece, runs: seq<Piece>)
    ensures Wrap([p] + runs) == (if p.Thinking? then OPEN_TAG + p.s + CLOSE_TAG else p.s) + Wrap(runs)
    ensures Continue([p] + runs) == if p.Thinking? then p.s + CLOSE_TAG + Wrap(runs) else CLOSE_TAG + Wrap([p] + runs)
  {
    hide OPEN_TAG, CLOSE_TAG;
    assert ([p] + runs)[1..] == runs;
  }

  lemma WrapMerge(p: Piece, runs: seq<Piece>)
    ensures p.Thinking? ==> Continue(Merge(p, runs)) == p.s + Continue(runs)
    ensures p.Thinking? ==> Wrap(Merge(p, runs)) == OPEN_TAG + p.s + Continue(runs)
    ensures p.Text? ==> Wrap(Merge(p, runs)) == p.s + Wrap(runs)
    ensures p.Text? ==> Continue(Merge(p, runs)) == CLOSE_TAG + p.s + Wrap(runs)
  {
    hide OPEN_TAG, CLOSE_TAG, Wrap, Continue;
    if runs != [] && runs[0].Thinking? == p.Thinking? {
      var rest := runs[1..];
      assert runs == [runs[0]] + rest;
      WrapCons(runs[0], rest);
      WrapCons(runs[0].(s := p.s + runs[0].s), rest);
      Assoc(p.s, runs[0].s, CLOSE_TAG);
      Assoc(p.s, runs[0].s + CLOSE_TAG, Wrap(rest));
      Assoc(p.s, runs[0].s, Wrap(rest));
      Assoc(OPEN_TAG, p.s, runs[0].s);
      Assoc(OPEN_TAG + p.s, runs[0].s, CLOSE_TAG);
      Assoc(OPEN_TAG + p.s, runs[0].s + CLOSE_TAG, Wrap(rest));
      Assoc(CLOSE_TAG, p.s, Wrap(runs));
    } else {
      WrapCons(p, runs);
      ContinueShut(p, runs);
      Assoc(p.s, CLOSE_TAG, Wrap(runs));
      Assoc(OPEN_TAG + p.s, CLOSE_TAG, Wrap(runs));
      Assoc(CLOSE_TAG, p.s, Wrap(runs));
    }
  }

  lemma ContinueShut(p: Piece, runs: seq<Piece>)
    requires !(runs != [] && runs[0].Thinking? == p.Thinking?)
    ensures p.Thinking? ==> Continue(runs) == CLOSE_TAG + Wrap(runs)
  {
    hide OPEN_TAG, CLOSE_TAG, Wrap;
  }

  /**
   * What the tagger writes depends on the runs alone: each maximal run of
   * thinking sits in exactly one pair of tags, and text is untouched.
   */
  lemma TaggedRuns(calls: seq<Chunk>)
    ensures TaggedText(false, calls) == Wrap(Runs(Pieces(calls)))
  {
    TaggedIsEmitted(false, calls);
    EmittedIsWrapped(Pieces(calls));
  }

  /** The runs alternate between thinking and text, and without their tags they are the input in order. */
  lemma {:induction false} RunsAlternate(ps: seq<Piece>)
    ensures var runs := Runs(ps);
      && Plain(runs) == Plain(ps)
      && (forall i :: 0 <= i < |runs| - 1 ==> runs[i].Thinking? != runs[i + 1].Thinking?)
      && (ps != [] ==> runs != [] && runs[0].Thinking? == ps[0].Thinking?)
    decreases |ps|
  {
    if ps != [] {
      RunsAlternate(ps[1..]);
      var p, runs := ps[0], Runs(ps[1..]);
      if runs != [] && runs[0].Thinking? == p.Thinking? {
        assert Merge(p, runs)[1..] == runs[1..];
        assert p.s + (runs[0].s + Plain(runs[1..])) == p.s + runs[0].s + Plain(runs[1..]);
      }
    }
  }

  lemma MergeTwice(p: Piece, q: Piece, runs: seq<Piece>)
    requires p.Thinking? == q.Thinking?
    ensures Merge(p, Merge(q, runs)) == Merge(p.(s := p.s + q.s), runs)
  {
    if runs != [] && runs[0].Thinking? == q.Thinking? {
      assert p.s + (q.s + runs[0].s) == p.s + q.s + runs[0].s;
    }
  }

  lemma RunsCons(p: Piece, ps: seq<Piece>)
    ensures Runs([p] + ps) == Merge(p, Runs(ps))
  {
    hide Merge;
    assert ([p] + ps)[1..] == ps;
  }

  /** Where a run is cut makes no difference. */
  lemma {:induction false} CutAnywhere(a: seq<Piece>, p: Piece, q: Piece, b: seq<Piece>)
    requires p.Thinking? == q.Thinking?
    ensures Runs(a + ([p, q] + b)) == Runs(a + ([p.(s := p.s + q.s)] + b))
    decreases |a|
  {
    hide Merge;
    var joined := p.(s := p.s + q.s);
    if a == [] {
      assert a + ([p, q] + b) == [p] + ([q] + b) && a + ([joined] + b) == [joined] + b;
      RunsCons(p, [q] + b);
      RunsCons(q, b);
      RunsCons(joined, b);
      MergeTwice(p, q, Runs(b));
    } else {
      CutAnywhere(a[1..], p, q, b);
      assert (a + ([p, q] + b))[1..] == a[1..] + ([p, q] + b);
      assert (a + ([joined] + b))[1..] == a[1..] + ([joined] + b);
    }
  }

  // ---------- the streamed rendering ----------

  datatype Event =
    | Header(status: nat)
    | ErrorBody(error: ReadError)
    | RoleChunk
    | ContentChunk(content: Bytes)
    | ErrorEvent(error: ReadError)
    | FinishChunk
    | DoneMark

  /** errorStatus: the HTTP status for an upstream failure. */
  function ErrorStatus(e: ReadError): nat {
    if !e.Stream? then 502
    else if e.error.code == Ascii("unauthenticated") then 401
    else if e.error.code == Ascii("permission_denied") then 403
    else if e.error.code == Ascii("resource_exhausted") then 429
    else if e.error.code == Ascii("invalid_argument") then 400
    else if e.error.code == Ascii("unavailable") then 503
    else 502
  }

  function Chunks(contents: seq<Bytes>): seq<Event> {
    if contents == [] then []
    else (if contents[0] == [] then [] else [ContentChunk(contents[0])]) + Chunks(contents[1..])
  }

  /** The response writer together with the closures of streamResponse: `log` is all that was written. */
  class EventWriter {
    var log: seq<Event>
    var started: bool

    constructor ()
      ensures log == [] && !started
    {
      log, started := [], false;
    }

    method Send(e: Event)
      modifies this
      ensures started && log == old(log) + (if old(started) then [] else [Header(200)]) + [e]
    {
      if !started {
        log := log + [Header(200)];
        started := true;
      }
      log := log + [e];
    }

    method Emit(content: Bytes)
      modifies this
      ensures started == (old(started) || content != [])
      ensures log == old(log)
        + (if content == [] || old(started) then [] else [Header(200), RoleChunk])
        + Chunks([content])
    {
      if content == [] {
        return;
      }
      if !started {
        Send(RoleChunk);
      }
      Send(ContentChunk(content));
    }
  }

  /** The log once the chunks `cs` went out through Emit on a fresh writer. */
  function Begun(cs: seq<Event>): seq<Event> {
    if cs == [] then [] else [Header(200), RoleChunk] + cs
  }

  /** Everything streamResponse writes, given how reading the upstream went. */
  function StreamLog(r: ReadResult): seq<Event> {
    var cs := Chunks(Outputs(false, r.calls));
    var closing := Chunks([CloseText(OpenAfter(false, r.calls))]);
    if r.err.Some? && cs == [] then [Header(ErrorStatus(r.err.value)), ErrorBody(r.err.value)]
    else
      [Header(200)] + (if cs == [] then [] else [RoleChunk] + cs)
      + (if r.err.Some? then [ErrorEvent(r.err.value)] else [])
      + closing + [FinishChunk, DoneMark]
  }

  lemma {:induction false} ChunksAppend(a: seq<Bytes>, b: seq<Bytes>)
    ensures Chunks(a + b) == Chunks(a) + Chunks(b)
  {
    if a == [] {
      assert a + b == b;
    } else {
      assert (a + b)[1..] == a[1..] + b;
      ChunksAppend(a[1..], b);
    }
  }

  lemma {:induction false} OutputsAppend(open: bool, a: seq<Chunk>, b: seq<Chunk>)
    ensures Outputs(open, a + b) == Outputs(open, a) + Outputs(OpenAfter(open, a), b)
    ensures OpenAfter(open, a + b) == OpenAfter(OpenAfter(open, a), b)
    decreases |a|
  {
    hide NextText, NextOpen;
    if a == [] {
      assert a + b == b;
    } else {
      assert (a + b)[1..] == a[1..] + b;
      OutputsAppend(NextOpen(open, a[0]), a[1..], b);
    }
  }

  lemma OneMoreCall(calls: seq<Chunk>, i: nat)
    requires i < |calls|
    ensures var open := OpenAfter(false, calls[..i]);
      && OpenAfter(false, calls[..i + 1]) == NextOpen(open, calls[i])
      && Chunks(Outputs(false, calls[..i + 1])) == Chunks(Outputs(false, calls[..i])) + Chunks([NextText(open, calls[i])])
      && Outputs(false, calls[..i + 1]) == Outputs(false, calls[..i]) + [NextText(open, calls[i])]
  {
    hide NextText, NextOpen;
    var open := OpenAfter(false, calls[..i]);
    assert calls[..i + 1] == calls[..i] + [calls[i]];
    OutputsAppend(false, calls[..i], [calls[i]]);
    assert Outputs(open, [calls[i]]) == [NextText(open, calls[i])];
    ChunksAppend(Outputs(false, calls[..i]), [NextText(open, calls[i])]);
  }

  /** Nothing has been sent means nothing is open: an open tag was itself sent. */
  lemma {:induction false} OpenMeansSent(open: bool, calls: seq<Chunk>)
    requires Chunks(Outputs(open, calls)) == []
    ensures OpenAfter(open, calls) == open && forall c :: c in calls ==> c == EMPTY
    decreases |calls|
  {
    if calls != [] {
      var c := calls[0];
      assert NextText(open, c) == [];
      NothingMeansEmpty(open, c);
      assert Outputs(open, calls)[1..] == Outputs(NextOpen(open, c), calls[1..]);
      OpenMeansSent(NextOpen(open, c), calls[1..]);
      assert calls == [c] + calls[1..];
    }
  }

  lemma NothingMeansEmpty(open: bool, c: Chunk)
    ensures NextText(open, c) == [] <==> c == EMPTY
    ensures c == EMPTY ==> NextOpen(open, c) == open
  {
    hide OPEN_TAG, CLOSE_TAG;
    assert |NextText(open, c)| >= |c.thinking| + |c.content|;
  }

  method StreamResponse(w: EventWriter, body: Reader, codec: Codec)
    requires w.log == [] && !w.started
    modifies w, body
    ensures w.log == StreamLog(ReadAll(codec, old(body.rest), body.fault))
  {
    hide ReadAll, NextText, NextOpen, ErrorStatus, Chunks, Outputs, OpenAfter, CloseText;
    var tagger := new ThinkingTagger();
    var calls, err := ReadFrames(body, codec);
    assert Begun([]) == [];
    assert calls[..0] == [];
    NoCalls();
    for i := 0 to |calls|
      invariant tagger.open == OpenAfter(false, calls[..i])
      invariant w.log == Begun(Chunks(Outputs(false, calls[..i])))
      invariant w.started == (Chunks(Outputs(false, calls[..i])) != [])
    {
      OneMoreCall(calls, i);
      var content := tagger.Next(calls[i].thinking, calls[i].content);
      ChunksOfOne(content);
      w.Emit(content);
    }
    assert calls[..|calls|] == calls;
    FinishStream(w, tagger, calls, err);
  }

  /** What comes after the callbacks: the error, the closing tag, and the end. */
  method FinishStream(w: EventWriter, tagger: ThinkingTagger, ghost calls: seq<Chunk>, err: Option<ReadError>)
    requires tagger.open == OpenAfter(false, calls)
    requires w.log == Begun(Chunks(Outputs(false, calls))) && w.started == (Chunks(Outputs(false, calls)) != [])
    modifies w, tagger
    ensures w.log == StreamLog(ReadResult(calls, err))
  {
    hide NextText, NextOpen, ErrorStatus, Chunks, Outputs, OpenAfter, CloseText;
    StreamLogParts(ReadResult(calls, err));
    ghost var cs := Chunks(Outputs(false, calls));
    if err.Some? {
      if !w.started {
        w.log := w.log + [Header(ErrorStatus(err.value)), ErrorBody(err.value)];
        return;
      }
      w.log := w.log + [ErrorEvent(err.value)];
    }
    hide StreamLog;
    if cs == [] {
      OpenMeansSent(false, calls);
      CloseShut();
    }
    var closing := tagger.Close();
    ChunksOfOne(closing);
    w.Emit(closing);
    w.Send(FinishChunk);
    w.log := w.log + [DoneMark];
  }

  /** The log of a stream that was not rejected, with and without content. */
  lemma StreamLogParts(r: ReadResult)
    ensures var cs := Chunks(Outputs(false, r.calls));
      var middle := if r.err.Some? then [ErrorEvent(r.err.value)] else [];
      var closing := Chunks([CloseText(OpenAfter(false, r.calls))]);
      r.err.None? || cs != [] ==>
        StreamLog(r) == if cs == [] then [Header(200), FinishChunk, DoneMark]
                        else Begun(cs) + middle + closing + [FinishChunk] + [DoneMark]
  {
    hide NextText, NextOpen, ErrorStatus, Chunks, Outputs, OpenAfter, CloseText;
    var cs := Chunks(Outputs(false, r.calls));
    if cs == [] {
      OpenMeansSent(false, r.calls);
      CloseShut();
    }
  }

  lemma CloseShut()
    ensures CloseText(false) == [] && Chunks([[]]) == []
  {
  }

  lemma NoCalls()
    ensures OpenAfter(false, []) == false && Outputs(false, []) == [] && Chunks([]) == []
  {
  }

  lemma ChunksOfOne(content: Bytes)
    ensures Chunks([content]) == if content == [] then [] else [ContentChunk(content)]
  {
  }

  // ---------- the collected rendering ----------

  datatype Completion = Completion(content: Bytes) | Failure(status: nat, error: ReadError)

  function CollectResult(r: ReadResult): Completion {
    if r.err.Some? then Failure(ErrorStatus(r.err.value), r.err.value) else Completion(TaggedText(false, r.calls))
  }

  method CollectResponse(body: Reader, codec: Codec) returns (c: Completion)
    modifies body
    ensures c == CollectResult(ReadAll(codec, old(body.rest), body.fault))
  {
    hide ReadAll, NextText, NextOpen, ErrorStatus, Outputs, OpenAfter, Chunks, Flatten;
    var tagger := new ThinkingTagger();
    var content: Bytes := [];
    var calls, err := ReadFrames(body, codec);
    assert calls[..0] == [];
    NoCalls();
    FlattenNone();
    for i := 0 to |calls|
      invariant tagger.open == OpenAfter(false, calls[..i])
      invariant content == Flatten(Outputs(false, calls[..i]))
    {
      OneMoreCall(calls, i);
      var text := tagger.Next(calls[i].thinking, calls[i].content);
      FlattenAppend(Outputs(false, calls[..i]), [text]);
      FlattenOne(text);
      content := content + text;
    }
    assert calls[..|calls|] == calls;
    if err.Some? {
      return Failure(ErrorStatus(err.value), err.value);
    }
    var closing := tagger.Close();
    return Completion(content + closing);
  }

  lemma FlattenNone()
    ensures Flatten<byte>([]) == []
  {
  }

  // ---------- the two renderings say the same ----------

  /** The content a client puts together from the events. */
  function ContentOf(log: seq<Event>): Bytes {
    if log == [] then [] else (if log[0].ContentChunk? then log[0].content else []) + ContentOf(log[1..])
  }

  lemma {:induction false} ContentAppend(a: seq<Event>, b: seq<Event>)
    ensures ContentOf(a + b) == ContentOf(a) + ContentOf(b)
  {
    if a == [] {
      assert a + b == b;
    } else {
      assert (a + b)[1..] == a[1..] + b;
      ContentAppend(a[1..], b);
    }
  }

  lemma {:induction false} ContentOfChunks(contents: seq<Bytes>)
    ensures ContentOf(Chunks(contents)) == Flatten(contents)
    ensures forall e :: e in Chunks(contents) ==> e.ContentChunk? && e.content != []
  {
    if contents != [] {
      ContentOfChunks(contents[1..]);
      if contents[0] == [] {
        assert Chunks(contents) == Chunks(contents[1..]);
        assert Flatten(contents) == Flatten(contents[1..]);
      } else {
        assert Chunks(contents)[1..] == Chunks(contents[1..]);
      }
    }
  }

  /** The stream is an HTTP error exactly when reading failed before there was any text. */
  ghost predicate Rejected(r: ReadResult) {
    r.err.Some? && forall c :: c in r.calls ==> c == EMPTY
  }

  lemma {:induction false} EmptyCallsSendNothing(open: bool, calls: seq<Chunk>)
    requires forall c :: c in calls ==> c == EMPTY
    ensures Chunks(Outputs(open, calls)) == []
    decreases |calls|
  {
    if calls != [] {
      assert calls[0] in calls && forall c :: c in calls[1..] ==> c in calls;
      NothingMeansEmpty(open, calls[0]);
      assert Outputs(open, calls)[1..] == Outputs(NextOpen(open, calls[0]), calls[1..]);
      EmptyCallsSendNothing(NextOpen(open, calls[0]), calls[1..]);
    }
  }

  /** A rejected stream is answered by one error status and nothing else. */
  lemma RejectedStream(r: ReadResult)
    requires Rejected(r)
    ensures StreamLog(r) == [Header(ErrorStatus(r.err.value)), ErrorBody(r.err.value)]
  {
    hide ErrorStatus, Outputs, OpenAfter, Chunks, CloseText;
    EmptyCallsSendNothing(false, r.calls);
  }

  /** The tags still to be closed: one closing tag or nothing. */
  lemma ClosingChunks(open: bool)
    ensures Chunks([CloseText(open)]) in [[], [ContentChunk(CLOSE_TAG)]]
  {
    assert CLOSE_TAG[0] == 10;
    ChunksOfOne(CloseText(open));
  }

  /**
   * Any other stream has one header, 200, first; a role chunk before its
   * content, if it has content at all; and the finish chunk and the end mark
   * last. In between is content, and if reading ended with an error then at
   * exactly one place, `at`, the event for it, with content before it and at
   * most the closing tag behind it.
   */
  lemma StreamShape(r: ReadResult, log: seq<Event>) returns (at: nat)
    requires !Rejected(r) && log == StreamLog(r)
    ensures |log| >= 3 && log[0] == Header(200) && log[|log| - 2..] == [FinishChunk, DoneMark]
    ensures (log[1].RoleChunk? && log[2].ContentChunk?) || (r.err.None? && log == [Header(200), FinishChunk, DoneMark])
    ensures forall i :: 1 < i < |log| - 2 && (r.err.None? || i != at) ==> log[i].ContentChunk?
    ensures r.err.Some? ==>
      && 2 < at < |log| - 2 && log[at] == ErrorEvent(r.err.value)
      && (at == |log| - 3 || (at == |log| - 4 && log[at + 1] == ContentChunk(CLOSE_TAG)))
  {
    hide NextText, NextOpen, ErrorStatus, Outputs, OpenAfter, Chunks, CloseText, OPEN_TAG, CLOSE_TAG;
    var outs := Outputs(false, r.calls);
    var cs, closing := Chunks(outs), Chunks([CloseText(OpenAfter(false, r.calls))]);
    var middle := if r.err.Some? then [ErrorEvent(r.err.value)] else [];
    at := 2 + |cs|;
    if cs == [] {
      OpenMeansSent(false, r.calls);
    }
    StreamLogParts(r);
    hide StreamLog;
    if cs != [] {
      ContentOfChunks(outs);
      ClosingChunks(OpenAfter(false, r.calls));
      ShapeWithContent(cs, middle, closing, log);
    }
  }

  lemma ShapeWithContent(cs: seq<Event>, middle: seq<Event>, closing: seq<Event>, log: seq<Event>)
    requires cs != [] && (forall e :: e in cs ==> e.ContentChunk?) && |middle| <= 1
    requires closing in [[], [ContentChunk(CLOSE_TAG)]]
    requires log == Begun(cs) + middle + closing + [FinishChunk] + [DoneMark]
    ensures |log| == 4 + |cs| + |middle| + |closing|
    ensures log[0] == Header(200) && log[1] == RoleChunk && log[|log| - 2..] == [FinishChunk, DoneMark]
    ensures forall i :: 1 < i < 2 + |cs| ==> log[i].ContentChunk?
    ensures log[2 + |cs|..2 + |cs| + |middle|] == middle
    ensures forall i :: 2 + |cs| + |middle| <= i < |log| - 2 ==> log[i] == ContentChunk(CLOSE_TAG)
  {
    hide OPEN_TAG, CLOSE_TAG;
    assert log == [Header(200), RoleChunk] + cs + middle + closing + [FinishChunk, DoneMark];
    forall i | 1 < i < 2 + |cs| ensures log[i].ContentChunk? {
      assert log[i] == cs[i - 2];
    }
  }

  /** Unless it was rejected, a stream carries exactly the tagged text, error or not. */
  lemma StreamedContent(r: ReadResult)
    requires !Rejected(r)
    ensures ContentOf(StreamLog(r)) == TaggedText(false, r.calls)
  {
    hide NextText, NextOpen, ErrorStatus, Outputs, OpenAfter, Chunks, Flatten, ContentOf;
    var outs, close := Outputs(false, r.calls), CloseText(OpenAfter(false, r.calls));
    var cs := Chunks(outs);
    if cs == [] {
      OpenMeansSent(false, r.calls);
    }
    var head := [Header(200)] + if cs == [] then [] else [RoleChunk] + cs;
    var middle := if r.err.Some? then [ErrorEvent(r.err.value)] else [];
    var tail := [FinishChunk, DoneMark];
    assert StreamLog(r) == head + (middle + (Chunks([close]) + tail));
    ContentAppend(head, middle + (Chunks([close]) + tail));
    ContentAppend(middle, Chunks([close]) + tail);
    ContentAppend(Chunks([close]), tail);
    ContentOfChunks(outs);
    ContentOfChunks([close]);
    FlattenOne(close);
    assert ContentOf(head) == ContentOf(cs) by {
      if cs == [] {
        NoContent(head);
        NoContent(cs);
      } else {
        assert head == [Header(200), RoleChunk] + cs;
        ContentAppend([Header(200), RoleChunk], cs);
        NoContent([Header(200), RoleChunk]);
        assert [] + ContentOf(cs) == ContentOf(cs);
      }
    }
    NoContent(middle);
    NoContent(tail);
  }

  lemma {:induction false} NoContent(log: seq<Event>)
    requires forall e :: e in log ==> !e.ContentChunk?
    ensures ContentOf(log) == []
  {
    if log != [] {
      NoContent(log[1..]);
    }
  }

  /** On every upstream that ends without error, both renderings give the same content. */
  lemma RenderingsAgree(r: ReadResult)
    requires r.err.None?
    ensures CollectResult(r) == Completion(ContentOf(StreamLog(r)))
    ensures ContentOf(StreamLog(r)) == Wrap(Runs(Pieces(r.calls)))
  {
    hide TaggedText, ContentOf, StreamLog;
    StreamedContent(r);
    TaggedRuns(r.calls);
  }

  // ---------- failures ----------

  /** The HTTP status for every upstream failure: by its code if Cursor sent one that is listed, and else 502. */
  lemma StatusExact(e: ReadError)
    ensures !e.Stream? ==> ErrorStatus(e) == 502
    ensures e.Stream? ==>
      var code, status := e.error.code, ErrorStatus(e);
      && (status == 401 <==> code == Ascii("unauthenticated"))
      && (status == 403 <==> code == Ascii("permission_denied"))
      && (status == 429 <==> code == Ascii("resource_exhausted"))
      && (status == 400 <==> code == Ascii("invalid_argument"))
      && (status == 503 <==> code == Ascii("unavailable"))
      && (status == 502 <==> code !in [Ascii("unauthenticated"), Ascii("permission_denied"), Ascii("resource_exhausted"),
                                       Ascii("invalid_argument"), Ascii("unavailable")])
  {
    assert |Ascii("unauthenticated")| == 15 && |Ascii("permission_denied")| == 17 && |Ascii("resource_exhausted")| == 18;
    assert |Ascii("invalid_argument")| == 16 && |Ascii("unavailable")| == 11;
    hide Ascii;
  }

  /**
   * Every upstream failure is reported with its own error: by the collected
   * rendering always, with its status, whatever text came before; by the
   * streamed one with the same status if there was no text, and else as the
   * event in the stream.
   */
  lemma FailuresReported(r: ReadResult)
    requires r.err.Some?
    ensures CollectResult(r) == Failure(ErrorStatus(r.err.value), r.err.value)
    ensures if forall c :: c in r.calls ==> c.content == [] && c.thinking == []
            then StreamLog(r) == [Header(ErrorStatus(r.err.value)), ErrorBody(r.err.value)]
            else StreamLog(r)[0] == Header(200) && ErrorEvent(r.err.value) in StreamLog(r)
  {
    hide ErrorStatus, StreamLog;
    assert forall c: Chunk :: c == EMPTY <==> c.content == [] && c.thinking == [];
    if Rejected(r) {
      RejectedStream(r);
    } else {
      var at := StreamShape(r, StreamLog(r));
    }
  }
}
