# AoyoRouter in Dafny

A model of the parts of AoyoRouter that hold state, speak a wire format or run
concurrently, with proofs of what they promise. `dafny verify dfyconfig.toml`
checks all of it.

| file | what it models |
|---|---|
| `Basics.dfy` | bytes, results, concatenation and folds |
| `Wire.dfy` | the protobuf layer: varints, records, `parseFields`, the append helpers |
| `Messages.dfy` | the chat request and its sub-messages, what every field number holds, and a reader that follows the protobuf rules only |
| `Responses.dfy` | decoding of stream responses |
| `Envelopes.dfy` | Connect envelopes: flag, big-endian length, payload |
| `ChatBody.dfy` | `GenerateChatBody` |
| `Frames.dfy` | the two stream readers, `readFrames` and `ParseStreamChunk` |
| `Bridge.dfy` | the thinking tagger, the streamed and the collected rendering |
| `Checksum.dfy` | the byte obfuscation in the checksum header |
| `ChatStream.dfy` | the browser's incremental line reader |
| `PushKey.dfy` | the browser's base64url key codec |
| `Quota.dfy`, `QuotaRuns.dfy` | the API-key quota: gate, queue, resets, and all their interleavings |
| `PushStore.dfy`, `PushRuns.dfy` | the two subscription tables, by operation and by interleaved SQL statements |
| `Events.dfy` | event paging and the poll cursor |
| `AccessPolicy.dfy` | restriction lists and the restricted selector |
| `Closer.dfy` | the shutdown protocol |
| `Warp.dfy` | the WARP endpoint allocator |

Code that updates state is a method or a class with loops and invariants,
proved against a function; what that function means is then proved as lemmas.
Concurrent protocols are state machines over their steps. A Go string or byte
slice is a sequence of bytes; lengths are bounded only where a Go slice bounds
them (below 2^64) or a format does (2^32 in an envelope header). A nil slice
that is only appended to is nil exactly while it is empty, so the encoders
return plain sequences and `Grown` turns an empty one into nil.

Library calls are parameters: gzip is a pair of functions with decompression
undoing compression, JSON decoding, `path.Match`, trimming and lower-casing,
the credential hash and UUIDs are arbitrary functions, and clock reads, map
iteration order and the outcome of starting a proxy are arbitrary values.

Where the code does less than one might expect, the exact condition is proved:

- `readFrames` and `ParseStreamChunk` agree on exactly the streams that
  `Frames.Readable` describes. Outside it they differ: `ParseStreamChunk`
  passes over frames that are cut short, too large or fail to decompress, and
  reads on behind a clean end-of-stream frame; `readFrames` does neither.
  `Frames.ReadersDiffer` is such a stream.
- The stored keys that count as equal to a configured push key are the ones it
  decodes to exactly in two cases: what is left of it without trailing padding
  is canonical base64url and lacked all of that padding, or that is not
  canonical and the key does not decode. Outside them, `PushKey.StrayBit` is a
  key that decodes to the same bytes and is taken for another, and
  `PushKey.OverPadded` one that is taken for equal and does not decode.
- Consumed plus outstanding usage stays within `limit - 1 + k * t` on all runs
  exactly when the limit is at least one. At zero or below, the lapsed branch
  of `Authenticate` resets the key and admits the request all the same.
- The gate lets a used-up key through unreset exactly when its reset time is
  the instant of both clock reads.
- The resetter brings a lagging key up to date exactly when it has a quota and
  a period of known length.
- `onDone` is called exactly when no line is an error event, provided the
  connection holds and there is an error event or no line holding the JSON value
  `null`. Without an error event such a line, as in `ChatStream.NullEvent`,
  rejects the stream with a TypeError: reading `type` of null throws outside
  the parse guard.
- A Subscribe is refused its topic by the foreign key, after any run of other
  statements behind its upsert, exactly when one of them deleted its endpoint,
  or ended an Unsubscribe of it while the row had no topic
  (`PushRuns.SubscribeRefusedExact`; `PushRuns.SubscribeCanFail` is such a run).
- A reset written late does not set the reset time back exactly when the row it
  was read from, one period on, is not behind the stored one.
  `QuotaRuns.ResetTimeFalls` is a run in which it is set back.

## Model

| member | source | states |
|---|---|---|
| Wire.ParseFields | pkg/cursor/proto.go:70-115 | the loop returns the field list or the error that the record-by-record definition gives |
| Wire.UvarintExact | pkg/cursor/proto.go:74-97 | a varint is read exactly when a well-formed group of at most ten bytes with a 64-bit value stands there, and with that value |
| Wire.VarintRoundTrip | pkg/cursor/proto.go:18-22 | every uint64 written is read back exactly, whatever bytes follow |
| Wire.ParseExact | pkg/cursor/proto.go:71-115 | input is accepted exactly when it is a gapless row of well-formed records; the fields are theirs, in order |
| Wire.ParseAppend | pkg/cursor/proto.go:71-115 | parsing a concatenation whose first part is accepted concatenates the fields, and reports a later error unchanged |
| Wire.LengthDelimitedParses | pkg/cursor/proto.go:46-50 | a bytes field is read back as one more field, present even when empty |
| Wire.AppendStringParses | pkg/cursor/proto.go:28-35 | a string is read back as one more field, or none when empty |
| Wire.AppendMessageParses | pkg/cursor/proto.go:52-59 | a sub-message is read back as one more field, or none when nil |
| Wire.AppendInt32Parses | pkg/cursor/proto.go:37-43 | an int32 is read back as its unsigned 32-bit form, or not written when zero |
| Messages.MessageRoundTrip | pkg/cursor/proto.go:130-138 | a chat message parses to exactly its non-default fields in rising order, reads back with all five values, negative numbers included, and vanishes only when all are default |
| Messages.RefRoundTrip | pkg/cursor/proto.go:169-175 | the same for an entry of the id list |
| Messages.MetadataRoundTrip | pkg/cursor/proto.go:149-160 | the same for the client metadata |
| Messages.CursorSettingFields | pkg/cursor/proto.go:203-215 | the settings sub-message holds exactly its five fields, three of them length-delimited |
| Messages.ModelRoundTrip | pkg/cursor/proto.go:230-233 | the model message parses to the name, if any, and an empty field 4 always |
| Messages.InstructionRoundTrip | pkg/cursor/proto.go:223-227 | an instruction parses to its text alone |
| Messages.RequestRoundTrip | pkg/cursor/proto.go:217-255 | a whole request parses to exactly the fields of its layout in rising order, and they read back as the request, nothing lost but all-default sub-messages |
| Messages.RequestFieldsExact | pkg/cursor/proto.go:217-255 | numbers never fall; each scalar occurs once if it is not the default and else never, each non-empty sub-message once in order, one model and one settings message, and no other number |
| Messages.SubmessageFieldsExact | pkg/cursor/proto.go:130-175 | the same for chat messages, metadata and id entries |
| Messages.SameBytesIffSameRequest | pkg/cursor/proto.go:217-255 | two requests encode alike exactly when they differ only in all-default sub-messages |
| Messages.EnvelopeRoundTrip | pkg/cursor/proto.go:257-266 | only a nil request is refused; any other is the one field of its envelope and comes back from it |
| Responses.DecodeStreamUnifiedChatResponse | pkg/cursor/proto.go:276-310 | the nested loops compute the fold over the parsed fields, with its errors |
| Responses.LastOneWins | pkg/cursor/proto.go:283-309 | decoding fails exactly when the response or a message in it does not parse; each text is the last occurrence on the wire, or empty |
| Responses.ConcatenationMerges | pkg/cursor/proto.go:278-310 | decoding a concatenation takes each text from the second part if that sets it and else from the first |
| Responses.UnknownOuterRecord | pkg/cursor/proto.go:284-287 | a record other than a message changes nothing, wherever it is inserted, errors included |
| Responses.UnknownInnerRecord | pkg/cursor/proto.go:292-306 | the same for an unused record inside a message |
| Responses.ResponseRoundTrip | pkg/cursor/proto.go:278-310 | content and thinking written with the package's helpers decode back |
| ChatBody.GenerateChatBody | pkg/cursor/body.go:29-115 | the loops build the body the definitions give |
| ChatBody.BodyRoundTrip | pkg/cursor/body.go:63-114 | below 2^32 payload bytes, unframing and decompressing by the flag gives the payload, which parses to one field holding exactly the fields of the composed request and reads back as it |
| ChatBody.HeaderLength | pkg/cursor/body.go:102-114 | flag 1 exactly from three spoken messages on; the four header bytes, most significant first, are the true payload length exactly below 2^32 |
| ChatBody.Conversation | pkg/cursor/body.go:41-61 | the i-th spoken message has its text and fresh id, role 1 and mode 1 for the user and 2 and 0 otherwise, and the i-th reference its id and role |
| ChatBody.InstructionIsJoined | pkg/cursor/body.go:32-40 | the instruction is the system texts one per line, without the empty ones at the start |
| ChatBody.SpokenExact | pkg/cursor/body.go:31-41 | the spoken messages stand at the rising positions of all messages that are not system prompts |
| ChatBody.BodySays | pkg/cursor/body.go:29-115 | everything a reader finds in the body: one frame, gzipped from three spoken messages on, in it the model name, the fixed values, the fresh ids, the client's description with the time, every message and reference, the instruction, and all other fields default |
| Frames.ReadFrames | pkg/cursor/server.go:472-521 | the callbacks in order and the error are those of the frame-by-frame definition, transport failures and short reads included |
| Frames.ParseStreamChunk | pkg/cursor/body.go:222-250 | the scan returns the thinking, text and error of the frame-by-frame definition |
| Frames.ReadersAgree | pkg/cursor/body.go:222-250 | on every byte stream, both readers give the same thinking, text and error exactly when the stream is Readable |
| Frames.ReadersDiffer | pkg/cursor/server.go:495-501 | a frame cut short, which one reader reports and the other passes over |
| Frames.WellFormedStreamsAgree | pkg/cursor/server.go:475-521 | both agree on every row of complete, bounded, decompressible frames with nothing behind an end-of-stream frame |
| Frames.TextFramesRead | pkg/cursor/server.go:475-521 | frames with flag bits 0 or 1 hand over the chunks their payloads decode to, gunzipped for 1, in order, and both readers go on behind them |
| Frames.EndFrameExact | pkg/cursor/body.go:191-215 | a frame with flag bits 2 or 3 ends the stream: both readers return the chunks before it and the error read off its payload, none for a blank one or one without error, the payload itself when it is no JSON, and else code, reason, title and detail |
| Frames.BrokenOffExact | pkg/cursor/server.go:478-506 | what readFrames returns for each way a stream can break off behind whole frames, and that ParseStreamChunk returns just what came before |
| Bridge.ThinkingTagger.Next | pkg/cursor/server.go:322-336 | the text written and the new state, from the old state and the call |
| Bridge.ThinkingTagger.Close | pkg/cursor/server.go:338-345 | the block is closed afterwards; the terminator is written only if it was open |
| Bridge.TaggedRuns | pkg/cursor/server.go:320-345 | all output up to the final close is the maximal runs, each thinking run in one pair of tags and text bare |
| Bridge.RunsAlternate | pkg/cursor/server.go:322-336 | the runs alternate in kind, and without their tags they are the input in order |
| Bridge.CutAnywhere | pkg/cursor/server.go:322-336 | cutting a run differently over several calls changes nothing |
| Bridge.StreamResponse | pkg/cursor/server.go:353-418 | everything written, as a log, for every upstream stream |
| Bridge.RejectedStream | pkg/cursor/server.go:398-404 | an error before any text is answered by one error status and nothing else |
| Bridge.StreamShape | pkg/cursor/server.go:358-417 | otherwise there is one 200 header first, the role chunk before all content, finish and end mark last; a stream that ended with an error has exactly one event for it, behind content and followed by at most the closing tag |
| Bridge.StreamedContent | pkg/cursor/server.go:378-412 | the content chunks of a stream that was not rejected add up to the tagged text, error or not |
| Bridge.CollectResponse | pkg/cursor/server.go:421-447 | the collected content or the failure, for every upstream stream |
| Bridge.RenderingsAgree | pkg/cursor/server.go:353-447 | on every stream that ends without error both renderings carry the same content, the wrapped runs |
| Bridge.StatusExact | pkg/cursor/server.go:451-470 | the HTTP status for every upstream failure, by its code |
| Bridge.FailuresReported | pkg/cursor/server.go:398-433 | every upstream failure is reported with its error: collected always, streamed as the status if there was no text and else as an event |
| Checksum.ObfuscateBytes | pkg/cursor/checksum.go:19-25 | the array in place holds the chained masking of its old content |
| Checksum.ObfuscatedBytes | pkg/cursor/checksum.go:19-25 | each byte is the input byte masked with the output before it, at first with 165, plus its index modulo 256 |
| Checksum.ClarifyBytes | pkg/cursor/checksum.go:19-25 | the inverse loop, in place: obfuscating its result gives the input, and nothing else does |
| Checksum.ObfuscationInjective | pkg/cursor/checksum.go:19-25 | no two byte strings of whatever lengths obfuscate alike |
| Checksum.BlockDeterminesTick | pkg/cursor/checksum.go:38-47 | the obfuscated six-byte block tells every 32-bit tick apart |
| Checksum.BlockLayout | pkg/cursor/checksum.go:38-47 | the block is the tick with its most significant byte first, behind a copy of its two low bytes |
| ChatStream.StreamChat | frontend/src/lib/models/chat.ts:95-132 | handler calls and outcome depend only on the concatenated text, not on its chunks; the buffer holds no newline between reads |
| ChatStream.LinesExact | frontend/src/lib/models/chat.ts:105-109 | lines and tail are the one way to cut a text at its newlines |
| ChatStream.CallsExact | frontend/src/lib/models/chat.ts:105-129 | the calls are those of the lines before the first that throws, taken one by one, and then onDone if there is none and the connection holds |
| ChatStream.ThrowsExact | frontend/src/lib/models/chat.ts:109-127 | a line throws exactly when it is an error event, with its message, or null, with a TypeError |
| ChatStream.PayloadExact | frontend/src/lib/models/chat.ts:107-112 | a line has a payload exactly when, white space aside, it is "data:" and then a text that is neither empty nor the end mark |
| ChatStream.LineExact | frontend/src/lib/models/chat.ts:110-126 | what every line does from its payload: text goes to onDelta, thinking without text to onThinking, an error event or null throws, all else does nothing |
| ChatStream.HandlersGet | frontend/src/lib/models/chat.ts:105-129 | over a response onDelta gets the texts of the deltas before the first throwing line, in order, and onThinking the thinking of those without text |
| ChatStream.ResponseShape | frontend/src/lib/models/chat.ts:99-132 | onDone is called, last and once, exactly when the connection holds and no line is an error event or null, and the promise is fulfilled just then; an unterminated last line is never dispatched |
| ChatStream.DonePromiseExact | frontend/src/lib/models/chat.ts:122-129 | on a connection that holds, onDone comes iff there was no error event exactly when there is one or no line is null |
| ChatStream.NullEvent | frontend/src/lib/models/chat.ts:115-122 | a response whose one line is null, without any error event, is rejected and never done |
| PushKey.UrlBase64ToUint8Array | frontend/src/lib/push.ts:66-75 | the array is filled with the decoded bytes, and atob throws exactly where decoding is undefined |
| PushKey.EncodeKey | frontend/src/lib/push.ts:93-98 | the loop yields the encoded key, and the empty string for a missing buffer |
| PushKey.KeyRoundTrip | frontend/src/lib/push.ts:66-98 | decoding an encoded key gives its bytes back, for all bytes |
| PushKey.Alphabets | frontend/src/lib/push.ts:68-97 | the sextets are written in the alphabets of RFC 4648 sections 4 and 5 |
| PushKey.GroupIsOneNumber | frontend/src/lib/push.ts:97 | three bytes and their four sextets are the same 24-bit number |
| PushKey.CanonicalExact | frontend/src/lib/push.ts:93-98 | the canonical unpadded strings are exactly the encoded keys |
| PushKey.ComparisonExact | frontend/src/lib/push.ts:111-119 | the stored keys that pass the comparison are the ones the configured key decodes to exactly when that key less its padding is canonical and lacked that much padding, or is not canonical and the key does not decode |
| PushKey.StrayBit | frontend/src/lib/push.ts:111 | a key with the same bytes that the comparison takes for another |
| PushKey.OverPadded | frontend/src/lib/push.ts:111-119 | a key the comparison takes for equal that does not decode |
| Quota.ApiKeyRepo.AddToQueue | internal/adapter/postgres/apikey_repo/apikey_repo.go:40-50 | the usage is appended, or the queue is left alone with an error when the context expired |
| Quota.ApiKeyRepo.ProcessOne | internal/adapter/postgres/apikey_repo/apikey_repo.go:52-65 | the head of the queue is removed and charged to its key |
| Quota.ApiKeyRepo.AddApiKeyQuotaUsage | internal/adapter/postgres/apikey_repo/apikey_repo.go:69-87 | only the named key's stored value grows, by the given amount |
| Quota.ApiKeyRepo.UpdateApiKeyQuota | internal/adapter/postgres/apikey_repo/apikey_repo.go:194-223 | a lapsed key is zeroed and moved one period on; the four quota columns are overwritten by the caller's copy |
| Quota.QuotaGate | internal/app/cliproxyapi/access_provider.go:69-92 | the decision for a key and two clock reads |
| Quota.GateCases | internal/app/cliproxyapi/access_provider.go:69-92 | refused exactly when the key has a quota, used it up, and its period never ends or is not over; reset exactly when it is over before now; admitted in every other case |
| Quota.PeriodLengths | internal/models/apikey.go:40-57 | the length of every period, each in terms of the next shorter one |
| Quota.GateExact | internal/app/cliproxyapi/access_provider.go:69-92 | a used-up key is admitted unreset exactly when it is not perpetual and its reset time is both clock reads |
| Quota.CatchesUp | internal/adapter/postgres/apikey_repo/apikey_repo.go:194-204 | a lagging key is due on exactly ceil((now - reset) / d) ticks, each zeroing it and moving it by d, ends in [now, now + d), and then rests |
| Quota.CatchesUpExact | internal/app/app.go:110-125 | a due key ever catches up exactly when it has a quota and a period of positive length |
| QuotaRuns.StepConserves | internal/app/cliproxyapi/usage_plugin.go:31-84 | every step keeps the books; processing only moves usage from outstanding to consumed |
| QuotaRuns.StepsAreStatements | internal/adapter/postgres/apikey_repo/apikey_repo.go:52-87 | the steps that touch the key do to it what the statements of the repository do to its row, and no other step touches it |
| QuotaRuns.RunConserves | internal/adapter/postgres/apikey_repo/apikey_repo.go:25-87 | in every interleaving consumed, outstanding, wiped and lost usage add up to what requests used |
| QuotaRuns.QuotaBound | internal/app/cliproxyapi/access_provider.go:69-92 | in every interleaving consumed plus outstanding usage is at most max(limit, 1) - 1 + k * t |
| QuotaRuns.PromiseExact | internal/app/cliproxyapi/access_provider.go:80-90 | limit - 1 + k * t bounds all runs of a new key exactly when the limit is at least one |
| QuotaRuns.ResetWipes | internal/adapter/postgres/apikey_repo/apikey_repo.go:194-223 | a reset wipes exactly the tokens stored when it is written and leaves the row it was read from, one period on; no other step wipes any |
| QuotaRuns.UsageBound | internal/app/cliproxyapi/access_provider.go:69-92 | in every interleaving, usage that was not lost is at most (1 + resets written) * (max(limit, 1) - 1 + k * t) |
| QuotaRuns.ResetMovesForwardExact | internal/adapter/postgres/apikey_repo/apikey_repo.go:194-223 | a reset does not lower the reset time exactly when its row, one period on, is not behind the stored one |
| QuotaRuns.ResetTwice | internal/adapter/postgres/apikey_repo/apikey_repo.go:194-223 | a run of a new key in which two requests read one lapsed row and wipe all usage in two resets, while the reset time moves by one period |
| QuotaRuns.ResetTimeFalls | internal/adapter/postgres/apikey_repo/apikey_repo.go:194-223 | a run of a new key in which a late reset sets the reset time back by one period |
| PushStore.SubscribeRefines | internal/adapter/postgres/push_repo/push_repo.go:26-71 | the tables stay valid, the pair is added to the set, and the topic row is new exactly when the pair is |
| PushStore.SubscribeReplacesDetails | internal/adapter/postgres/push_repo/push_repo.go:39-53 | the endpoint has exactly the new details, every other keeps its own |
| PushStore.UnsubscribeRefines | internal/adapter/postgres/push_repo/push_repo.go:73-104 | the pair leaves the set, and an endpoint's row stays exactly as long as it has a pair |
| PushStore.DeleteRefines | internal/adapter/postgres/push_repo/push_repo.go:185-198 | all pairs of the endpoint leave the set, no topic dangles |
| PushStore.RunsRefine | migrations/20260829231500_addpushsubscriptions.sql:2-19 | in every run of whole operations from empty tables: endpoints unique, no dangling topic, no idle subscription, and the tables stand for the set the operations describe |
| PushRuns.StatementsCompose | internal/adapter/postgres/push_repo/push_repo.go:26-104 | the statements of an operation, one right after the other, are the operation |
| PushRuns.StepRefines | internal/adapter/postgres/push_repo/push_repo.go:26-104 | in every interleaving each statement changes the set of pairs at once or not at all, and what it reports as inserted or deleted is what it changed |
| PushRuns.RunRefines | internal/adapter/postgres/push_repo/push_repo.go:26-104 | in every interleaving of single statements: endpoints unique, no dangling topic, the tables stand for the set of pairs, and no idle subscription whenever no operation is under way |
| PushRuns.RowSurvives | internal/adapter/postgres/push_repo/push_repo.go:73-104 | over any stretch of any run a subscription's row is still there exactly when no statement in it deleted its endpoint or ended an Unsubscribe of it while it had no topic |
| PushRuns.SubscribeRefusedExact | internal/adapter/postgres/push_repo/push_repo.go:39-70 | after its upsert and any run of other statements a Subscribe is refused exactly when one of those removed its row, and then changes nothing; else its pair is in the set |
| PushRuns.SubscribeCanFail | internal/adapter/postgres/push_repo/push_repo.go:54-70 | an Unsubscribe that ends between the statements of a Subscribe leaves it without its row |
| PushStore.PushRepo.Subscribe | internal/adapter/postgres/push_repo/push_repo.go:26-71 | `created` is true exactly when the pair was absent; an invalid subscription changes nothing |
| PushStore.PushRepo.Unsubscribe | internal/adapter/postgres/push_repo/push_repo.go:73-104 | `removed` is true exactly when the pair was present |
| PushStore.PushRepo.DeleteByEndpoint | internal/adapter/postgres/push_repo/push_repo.go:185-198 | the new tables and the pairs left |
| PushStore.PushRepo.SubscribersOf | internal/adapter/postgres/push_repo/push_repo.go:154-183 | each endpoint paired with the subject exactly once, with its stored details, and no other |
| PushStore.PushRepo.SubjectsByEndpoint | internal/adapter/postgres/push_repo/push_repo.go:106-119 | exactly the subjects paired with the endpoint, each once, in the order of the collation: the converse view |
| Events.ListNotificationEvents | internal/driver/server/notifications.go:122-146 | the loop returns the page and its largest id |
| Events.PageSplits | internal/adapter/postgres/push_repo/push_repo.go:223-257 | a page is the first 50 due events; they and what is due after the new cursor are what was due; the cursor grows on every non-empty page |
| Events.ClientAgrees | frontend/src/lib/api.ts:307-316 | the cursor the client derives is the server's |
| Events.PollsDeliver | internal/driver/server/notifications.go:122-146 | over a growing table, delivered and still-due events are always together all due events, in order |
| Events.DeliveredOnce | internal/driver/server/notifications.go:122-146 | when a page comes back empty, exactly the due events have been delivered, once each and in id order |
| Events.PagesNeeded | internal/adapter/postgres/push_repo/push_repo.go:223-257 | n due events in a fixed table take exactly ceil(n / 50) non-empty pages |
| AccessPolicy.NormalizeRestrictions | internal/app/cliproxyapi/access_policy.go:263-278 | the loop returns the first occurrences of the non-blank normal forms |
| AccessPolicy.NormalizedExact | internal/app/cliproxyapi/access_policy.go:263-278 | the result holds exactly the non-blank normal forms, none twice |
| AccessPolicy.RestrictedMatch | internal/app/cliproxyapi/access_policy.go:235-261 | true exactly when a non-blank value or its unprefixed form matches, equals, or meets a malformed restriction |
| AccessPolicy.ProviderRestricted | internal/app/cliproxyapi/access_policy.go:154-186 | true exactly when id, provider, type, provider id or a known credential is restricted |
| AccessPolicy.Pick | internal/app/cliproxyapi/access_policy.go:119-145 | the outcome for every policy and candidate list |
| AccessPolicy.PickExact | internal/app/cliproxyapi/access_policy.go:125-144 | refusal for the model exactly when either name is restricted, for the provider exactly when a non-empty list has no permitted candidate, else the inner selector gets the permitted ones |
| AccessPolicy.AllowedExact | internal/app/cliproxyapi/access_policy.go:134-140 | the candidates passed on sit at rising positions that are all the permitted ones and no other |
| AccessPolicy.AccessPolicyStore.Set | internal/app/cliproxyapi/access_policy.go:55-73 | only the key's scope changes; it has a policy exactly when a restriction is left after normalising; the restricted providers are resolved |
| AccessPolicy.AccessPolicyStore.ResolveProviderFingerprints | internal/app/cliproxyapi/access_policy.go:75-99 | exactly the listed UUIDs whose last lookup is 30 seconds old or older, or missing, are looked up now; all others keep their entries |
| AccessPolicy.ResolutionHonest | internal/app/cliproxyapi/access_policy.go:75-99 | every cached fingerprint is always what the last lookup found, and after a resolution that lookup is less than 30 seconds old |
| AccessPolicy.OutcomeByMeaning | internal/app/cliproxyapi/access_policy.go:55-73 | reordering, repeating, re-casing or padding the restriction lists changes the outcome of no request |
| AccessPolicy.OutcomeAfterSet | internal/app/cliproxyapi/access_policy.go:119-145 | what a request meets after Set, from the meaning of the two lists: the whole list without restrictions, refusal for the model exactly when a name or its unprefixed form is blocked, else the candidates that are not blocked in order, or refusal when none of some is left |
| AccessPolicy.CoversTypeExact | internal/app/cliproxyapi/access_policy.go:188-223 | which provider types each restriction stands for |
| AccessPolicy.ContainsExact | internal/app/cliproxyapi/access_policy.go:213-219 | a text contains another exactly when it can be cut around it |
| Closer.StepKeepsInv | internal/closer/closer.go:30-79 | every step keeps one winner, one start per function, and `done` only after all results were received |
| Closer.ClosedMeansAllRan | internal/closer/closer.go:30-79 | in every interleaving the list taken is everything added before, in order, one goroutine each, each started at most once; once `done` is closed every function added before the take was started exactly once and has returned; WaitTimeout returns nil only then |
| Closer.LaterCallsRunNothing | internal/closer/closer.go:30-64 | after the list is taken, neither Add nor a later CloseAll changes it: one goroutine each, and every start from then on is of a taken function, once |
| Closer.NothingAfterDone | internal/closer/closer.go:56-79 | after `done` is closed nothing starts any more and it stays closed |
| Closer.NeverStuck | internal/closer/closer.go:56-79 | once CloseAll was called and until `done` is closed a step of the shutdown is possible, and it waits for nothing but a called function to return |
| Closer.StepsApproach | internal/closer/closer.go:30-79 | every step of the shutdown lowers the distance to `done`, and no other step raises it |
| Closer.CanFinish | internal/closer/closer.go:56-79 | from every reachable state in which CloseAll was called, shutdown steps alone close `done` |
| Warp.Allocator.CreateProxy | internal/adapter/warp/proxy.go:99-170 | a proxy is registered on some free endpoint, or nothing changes; nil exactly when the start failed or no endpoint is free |
| Warp.UsedEqualsOccupied | internal/adapter/warp/proxy.go:154-159 | as many endpoints are in use as addresses are occupied |
| Warp.RunsBalance | internal/adapter/warp/proxy.go:99-170 | in every run one proxy per address, the books balance, and a registered proxy stays |

## Left out

- Frames.ReadFrames: the callback is collected as the list of its calls; the renderings in `Bridge` run over that list. Neither callback reads the upstream, so the order of writes is the same.
- Bridge.StreamResponse: ids, timestamps, the model name and flushing are not in the log.
- Quota.ApiKeyRepo.AddApiKeyQuotaUsage: the stored value is unbounded; Postgres refuses an increment past 64 bits.
- QuotaRuns.QuotaBound: speaks of the stored value. A reset writes back a row read earlier, so usage processed in between is wiped; the books in `RunConserves` count it as wiped, and the bound does not.
- QuotaRuns.RunConserves: a key edited by an administrator during the run is not modelled; limit and period are fixed.
- PushStore.RunsRefine: an operation is one step here; `PushRuns` takes its statements apart. A process that dies between two statements is not modelled.
- PushStore.PushRepo.Subscribe: the validation of endpoint and keys is a parameter; labels are not modelled.
- Events.PollsDeliver: an event becomes visible in id order; rows committed out of the order of their serial ids are not modelled, nor is pruning.
- AccessPolicy.AccessPolicyStore.Set: one call runs at a time; two calls on the concurrent maps at once are not modelled. The selector gets the policy and the fingerprints as parameters.
- ChatStream.StreamChat: starts at the first read; the request, a refused response and the byte-to-text decoder are not modelled.
- Closer.StepKeepsInv: a close function that panics is not modelled; one that never returns simply takes no further step.
- The mutex-guarded bodies of the closer are steps of its state machine, not methods on an object.
- `Authenticate` before the quota check (token extraction, login) and after it (storing the policy), and the model-list filter `ExcludeRestrictedModels`.
- Decoding of the model list, HTTP and gRPC handlers, generated code, SQL text, migrations other than the subscription tables, web push, OAuth and the user interface.
