# service-kit-go, modelled and proved in Dafny

This project models the stateful parts of `service-kit-go` and proves what they
promise. `dafny verify dfyconfig.toml` checks all of it.

- **Log exporter** (`Exporter*.dfy`, `BulkPayload.dfy`). `ExporterProtocol` is a
  transition system: one step is one action another goroutine can observe, and a
  run is any interleaving of any number of Write, Sync and Shutdown calls with the
  worker. `ExporterInvariants` has the inductive invariants, `ExporterTheorems`,
  `ExporterShutdown`, `ExporterBatches`, `ExporterPromises` and `ExporterLimits` the
  results. `Exporter`
  is the object with its fields and the worker's loops; its ghost field is the run
  so far, so every result about runs holds of it. `BulkPayload` is the framing of
  the documents.
- **Trace-id colouring** (`TraceColor.dfy`, `TraceSpans.dfy`, `TraceRendering.dfy`): the
  scanner that undoes JSON escaping of colour codes and the wrap-around hash that
  picks the colour, where the scanner makes escape characters, and what becomes of a
  coloured id.
- **Key caches** (`KeyCache*.dfy`): the resolver's and the verifier's, used in
  sequence against a fixed key set, and under concurrent calls. `Base64Url.dfy`
  decodes the texts of a key, `RsaExponent.dfy` exponents.
- **Token cache** (`TokenCache.dfy`).
- **Claims** (`Normalize.dfy`, `Access.dfy`): normalisation, and exactly what it does
  to access decisions.
- **Errors** (`ErrorChain.dfy`): chains, `WithDetails`, and the aliasing of details.
- **Lists and maps** (`CommaList.dfy`, `KafkaHeaders.dfy`, `LastWins.dfy`): parsing of
  comma lists, header carriers, and maps filled in an order the runtime chooses.

Assumptions: the clock is monotone; Go's `int` has 64 bits; text is ASCII, where
`EqualFold` means equal lower-case forms; pointers are equal when they point to
the same object, and two error values with one address are the same object. What
comes from outside is a parameter: the answer of a server, a fetched key set, the
times of a call, the order in which a map is ranged over, whether a context ends.
A nil slice or map is the empty one.

Where the code does not do what its documentation says, the code is modelled, the
exact condition proved, and an input given on which it fails. The comment on `Sync`
promises that everything accepted before the call is sent; a Sync that starts after
`stopped` was set returns nil at once (`SyncPromise`, `SyncSkipped`), and so does a
Shutdown that is not the first, once the first one's context has ended
(`ShutdownResult`, `ShutdownSkipped`). The comment on `Shutdown` promises that the
worker is stopped; it never stops when the caller's context ends before the worker
takes the command (`ShutdownPromise`, `NeverStops`). The scanner of console output
promises that no field but `trace_id` brings control characters; a value that is not
a coloured id but begins like one lets those of the next field through, unless a
reset comes before its closing quote (`EscapesInValues`, `OtherField`), while a
coloured id never does (`ColoredStays`). The verifier can return a key that is past
its TTL: it does unless a set was stored less than the TTL before the read, by the
call itself or after it (`SecondReadFresh`, `ReturnedFresh`, `StaleSecondRead`). The
two parsers of key sets treat white space around a key's text differently
(`SameKey`, `SpacedText`). Normalising contours can take a group away
(`DecisionsSame`, `RepeatedContour`). A quoted `expires_in` can wrap around
(`QuotedLifetime`, `WrappedLifetime`). `WithDetails` drops the errors wrapped around
the first AppError (`OuterLost`), and dereferences nil for a chain whose first
AppError is a nil pointer (`WithDetails`).

## Model

| member | source | states |
|---|---|---|
| ExporterTheorems.Conservation | pkg/logging/opensearch.go:234-278 | In every reachable state of every interleaving the accepted documents are, as a sequence, those handed to `send`, then the batch, then the queue; the queue never exceeds its capacity |
| ExporterTheorems.AcceptedInOrder | pkg/logging/opensearch.go:166-190 | Each accepted document is that of one Write, identified by its two steps in the run, the order of acceptance is the order of the enqueue steps, and no Write is accepted twice |
| ExporterTheorems.OneOutcome | pkg/logging/opensearch.go:166-190 | No Write has its document accepted twice, or dropped twice, or both accepted and dropped |
| ExporterTheorems.WriteEndsOnce | pkg/logging/opensearch.go:166-190 | In any run a Write enqueues, or fails to encode, at most once |
| ExporterTheorems.ReturnedIsFinal | pkg/logging/opensearch.go:166-232 | A call that has returned keeps its result and takes no further step |
| ExporterTheorems.WriteNeverBlocks | pkg/logging/opensearch.go:166-190 | In every reachable state a Write can begin, and one that has begun can end, whatever the worker does; it goes on exactly when `stopped` is not set |
| ExporterTheorems.CallsGoOn | pkg/logging/opensearch.go:192-232 | A begun call always has a next step of its own, except that a losing Shutdown waits for the winner and a waiting call may only have its context end; a worker in its outer select takes any command |
| ExporterTheorems.DroppedOnlyWhenFull | pkg/logging/opensearch.go:183-189 | Every enqueue step is accepted if and only if the queue had room, and dropped if and only if it was full |
| ExporterTheorems.Barrier | pkg/logging/opensearch.go:192-232 | When Sync or Shutdown has returned with the worker's reply, every document accepted before the call's first step has been handed to `send`, whatever happened in between |
| ExporterShutdown.ExactlyOneReply | pkg/logging/opensearch.go:257-271 | Received commands are distinct and replied to once each, in order, with at most one outstanding; a caller still waiting can collect its reply |
| ExporterShutdown.ReplyNeverBlocks | pkg/logging/opensearch.go:218-231 | Whenever the worker is about to reply the call's one-slot channel is empty, even if the caller is gone |
| ExporterShutdown.WorkerNeverStuck | pkg/logging/opensearch.go:248-277 | In a reachable state the worker has no step to take if and only if it has stopped |
| ExporterShutdown.ReplyReportsSend | pkg/logging/opensearch.go:226-268 | The error a command call returns is that of the send that ended its own drain, or nil when there was nothing to send |
| ExporterShutdown.OneShutdown | pkg/logging/opensearch.go:204-215 | In any run `stopped` is set at most once and at most one shutdown command reaches the worker |
| ExporterShutdown.ExitedIffReplied | pkg/logging/opensearch.go:266-271 | The worker has stopped if and only if it has replied to a shutdown command |
| ExporterShutdown.ExitIsFinal | pkg/logging/opensearch.go:266-271 | After it has stopped the worker never sends or replies again, and the queue only grows |
| ExporterShutdown.LeftBehind | pkg/logging/opensearch.go:166-215 | What a stopped worker leaves in the queue is the documents of exactly those Writes that read `stopped` before it was set and enqueued after the last drain; no document handed to `send` is of such a Write |
| ExporterBatches.BatchBounds | pkg/logging/opensearch.go:248-276 | In the outer select the batch is shorter than batchSize; no batch is empty, size batches have exactly batchSize documents, tick batches fewer |
| ExporterBatches.DrainedBatch | pkg/logging/opensearch.go:257-268 | At the end of a drain everything accepted is handed over; the batch is at most batchSize-1+queueSize plus what landed meanwhile |
| ExporterBatches.DrainTerminates | pkg/logging/opensearch.go:258-265 | With no Write in between a drain takes exactly as many receives as the queue is long and adds it, in order, to the batch |
| ExporterPromises.SyncPromise | pkg/logging/opensearch.go:192-201 | In every continuation a nil result of this Sync means all earlier documents were sent, if and only if `stopped` was not set when it began or nothing was left to send |
| ExporterPromises.SyncSkipped | pkg/logging/opensearch.go:192-201 | A run after which a Sync returns nil with a document unsent |
| ExporterPromises.ShutdownResult | pkg/logging/opensearch.go:203-216 | In every continuation a nil result of this Shutdown means all earlier documents were sent, if and only if no other Shutdown had begun before it or nothing was left to send |
| ExporterPromises.ShutdownSkipped | pkg/logging/opensearch.go:209-215 | A run after which a second Shutdown can return nil with a document unsent |
| ExporterPromises.LoserSkips | pkg/logging/opensearch.go:209-215 | Whenever another Shutdown has begun, some continuation lets a new one return nil without anything more being sent |
| ExporterLimits.NeverStops | pkg/logging/opensearch.go:203-232 | A run with a cancelled Shutdown after which the worker stops in no continuation |
| ExporterLimits.ShutdownPromise | pkg/logging/opensearch.go:203-232 | Once the winning Shutdown has returned the worker can stop in some continuation if and only if it had received the command |
| Exporter.OpenSearchExporter.constructor | pkg/logging/opensearch.go:91-123 | Sizes that are not positive become 100 for the batch and 1000 for the queue; the object starts with the empty run |
| Exporter.OpenSearchExporter.BeginWrite | pkg/logging/opensearch.go:167-170 | Write goes on with its document exactly when `stopped` is not set, otherwise it returns nil; nothing else changes |
| Exporter.OpenSearchExporter.FinishWrite | pkg/logging/opensearch.go:183-189 | The document goes to the end of the queue exactly when there is room, and the call returns either way; nothing else changes |
| Exporter.OpenSearchExporter.FailWrite | pkg/logging/opensearch.go:175-178 | An encoding error ends the Write and changes nothing else |
| Exporter.OpenSearchExporter.BeginSync | pkg/logging/opensearch.go:193-201 | Sync comes to wait for the worker exactly when `stopped` is not set |
| Exporter.OpenSearchExporter.BeginShutdown | pkg/logging/opensearch.go:204-215 | The first call enters stopOnce, sets `stopped` and comes to wait for the worker; any other waits for the first one, or returns nil at once if that has returned, and changes nothing else |
| Exporter.OpenSearchExporter.SkipShutdown | pkg/logging/opensearch.go:209-215 | A Shutdown that waited for the first one returns nil after it |
| Exporter.OpenSearchExporter.CancelCall | pkg/logging/opensearch.go:218-231 | A waiting call whose context ends returns that error, which ends stopOnce if it was the winning Shutdown |
| Exporter.OpenSearchExporter.Collect | pkg/logging/opensearch.go:226-228 | The caller returns the reply in its channel; a legal step of the run |
| Exporter.OpenSearchExporter.Flush | pkg/logging/opensearch.go:239-246 | The whole batch goes to `send` and a new one starts; the send log grows by exactly that batch |
| Exporter.OpenSearchExporter.DrainOne | pkg/logging/opensearch.go:258-262 | One receive moves the oldest document to the batch; Writes interleave between such receives |
| Exporter.OpenSearchExporter.Drain | pkg/logging/opensearch.go:258-265 | The loop, when no Write lands meanwhile, empties the queue into the batch, in order, by one receive step per document; with Writes in between DrainedBatch tells the outcome |
| Exporter.OpenSearchExporter.OnDocument | pkg/logging/opensearch.go:250-256 | The first document joins the batch; nothing is sent unless the batch became full, then exactly batchSize documents are |
| Exporter.OpenSearchExporter.OnTick | pkg/logging/opensearch.go:272-275 | The batch, whatever its length, is sent and the queue is left alone |
| Exporter.OpenSearchExporter.OnCommand | pkg/logging/opensearch.go:257-271 | A pass in which no Write lands: batch and queue are sent as one payload, after which the send log is all that was ever accepted; the reply is in the caller's channel; a shutdown stops the worker, anything else does not |
| Exporter.OpenSearchExporter.SendReply | pkg/logging/opensearch.go:268-271 | The reply is put into the call's empty channel, and the worker stops only for a shutdown command |
| BulkPayload.BuildPayload | pkg/logging/opensearch.go:280-288 | The loop builds action line, document, and a newline unless the document ends with one |
| BulkPayload.Framing | pkg/logging/opensearch.go:280-288 | The payload of n documents reads back as 2n newline-terminated lines, action and body alternating in order, if and only if no document has an inner newline |
| BulkPayload.ActionLine | pkg/logging/opensearch.go:283 | The action line is the text `{"index":{}}` |
| TraceColor.UnescapeTraceIDColor | pkg/logging/logger.go:182-209 | The position-driven scan ends, as the position strictly grows, and computes span-by-span rewriting |
| TraceColor.RoundTrip | pkg/logging/logger.go:182-209 | Escaping the result is escaping the input, for every input; so it gives the input back if and only if that had no raw escape character |
| TraceSpans.EscapesOnlyInSpans | pkg/logging/logger.go:173-209 | If the input had none, every escape character in the result lies in a piece that starts right after `"trace_id": "` with an escape character and ends with the first colour reset behind that |
| TraceSpans.OutsideSpans | pkg/logging/logger.go:173-209 | An escape character behind a reset lies in no such piece, unless a `"trace_id": "` lies right before it and behind the reset; so the theorem above forbids it |
| TraceSpans.EscapesInValues | pkg/logging/logger.go:173-209 | If the input had none, every escape character in the result lies in the value of a `trace_id`, up to the value's closing quote, if and only if at each span found the reset comes before that quote |
| TraceRendering.NoStraddling | pkg/logging/logger.go:183-191 | The search pattern has no proper border: an occurrence that starts before another one does not overlap it |
| TraceRendering.Rendering | pkg/logging/logger.go:182-218 | A coloured id that was JSON-encoded after its field name comes out as it went in and the scan continues behind it, for any text before it without the pattern and any rest, if and only if encoding escapes nothing in the id but escape characters and the id has no reset |
| TraceRendering.ColoredStays | pkg/logging/logger.go:160-209 | For every id, whatever is in it, the span found at its field ends before the closing quote of its value |
| TraceRendering.RunsOn | pkg/logging/logger.go:173-209 | A value that only opens a colour makes the span run on through the fields behind it to the first reset there, restoring all their escape characters |
| TraceRendering.OtherField | pkg/logging/logger.go:173-209 | An output in which the control code of the field `user` is let through |
| TraceColor.ColorizeTraceID | pkg/logging/logger.go:211-218 | The 32-bit wrap-around loop picks the colour of the exact base-31 polynomial modulo 2^32 |
| TraceColor.Color | pkg/logging/logger.go:212-217 | The colour code is always in 31..36 |
| TraceColor.ColorSpec | pkg/logging/logger.go:211-217 | The colour is 31 plus the hash modulo 2^32 modulo 6, where each character weighs 31 times as much as the one behind it |
| TraceColor.PolynomialConcat | pkg/logging/logger.go:213-216 | The hash of two texts put together is that of the first, shifted by the length of the second in base 31, plus that of the second |
| KeyCache.ParseKeys | pkg/auth/resolver.go:275-292 | The loop over the fetched set computes the map of usable keys in which later entries win |
| KeyCache.KeysSpec | pkg/oidc/verifier.go:169-179 | The key of a kid is that of its last usable entry, and no kid is empty |
| KeyCache.SameKey | pkg/auth/resolver.go:277-292 | For an OKP key of canonical type, curve and kid the resolver and the verifier (pkg/oidc/verifier.go) agree if and only if its text has no outer white space but line breaks, or holds no key once trimmed; the resolver takes every key that the verifier takes |
| KeyCache.ResolverTakes | pkg/auth/resolver.go:276-291 | Exactly which entries the resolver takes, by the lower-case forms of type and curve, the trimmed kid and the length of the decoded text, and which key it makes of them |
| KeyCache.VerifierTakes | pkg/oidc/verifier.go:169-218 | Exactly which entries the verifier takes, and the RSA or Ed25519 key it makes of them |
| KeyCache.RsaStored | pkg/oidc/verifier.go:190-205 | An RSA entry with encoded modulus and exponent is stored by the verifier with these as they were, the exponent exact below 2^63; the resolver stores none |
| KeyCache.RsaRefused | pkg/oidc/verifier.go:192-200 | An RSA entry is refused if and only if it has no kid, or its modulus or exponent does not decode or is empty |
| KeyCache.OkpStored | pkg/oidc/verifier.go:206-214 | A canonical Ed25519 entry is stored by either policy if and only if it encodes 32 bytes |
| KeyCache.AlgorithmsAccept | pkg/oidc/verifier.go:220-236 | The verifier accepts RSA keys for algorithms that begin with RS or PS, Ed25519 keys for EdDSA, and nothing else |
| KeyCache.SameOkpKeys | pkg/oidc/verifier.go:190-218 | From a set of canonical OKP keys on each of which they agree the verifier and the resolver store the same keys |
| KeyCache.SpacedText | pkg/auth/resolver.go:281 | A space before the text of a key: the resolver takes it, the verifier does not |
| KeyCache.ReturnedFresh | pkg/oidc/verifier.go:129-150 | In a call without interleaving a returned key is within its TTL when read, except in the verifier after a fetch: there if and only if it is read less than the TTL after it was stored |
| KeyCache.FetchAnswers | pkg/auth/resolver.go:206-228 | For a call with a kid: no fetch and the cached answer exactly within the TTL, otherwise one fetch, whose usable keys replace the cache and give the answer, or a refusal when the kid is not among them |
| Base64Url.TrimThenDecode | pkg/auth/resolver.go:281 | Decoding equals decoding after trimming if the text without line breaks has no outer white space, and fails otherwise |
| Base64Url.DecodeEncoded | pkg/oidc/verifier.go:193-211 | Decoding the base64url text of any bytes gives the bytes |
| Base64Url.Reencoded | pkg/oidc/verifier.go:193-211 | Decoding any digits and encoding the bytes gives the digits back, but for the bits of the last one that belong to no byte |
| Base64Url.DecodeAccepts | pkg/oidc/verifier.go:193-211 | Exactly the texts of base64url digits and line breaks are decoded, unless one digit is left over; to three bytes for four digits |
| KeyCache.JwksCache.CachedKey | pkg/auth/resolver.go:230-240 | A key is found exactly when it is stored and the snapshot's age is at most the TTL in the resolver, below it in the verifier |
| KeyCache.JwksCache.Refresh | pkg/auth/resolver.go:260-306 | Keys and time are replaced together by a set with a usable key; any other fetch changes nothing |
| KeyCache.JwksCache.PublicKeyFor | pkg/auth/resolver.go:206-228 | New cache, answer and requests of a whole call, given its times and what a fetch would bring; with the verifier's policy this is its `key` |
| KeyCacheRuns.AnswersDirect | pkg/oidc/verifier.go:129-150 | Against a fixed set with every requested kid, each answer of a sequence of calls is the direct lookup in the set |
| KeyCacheRuns.FetchBound | pkg/auth/resolver.go:215-240 | n >= 2 fetches take more than (n-1)*TTL in the resolver and at least (n-1)*TTL in the verifier |
| KeyCacheRuns.BoundReached | pkg/auth/resolver.go:230-240 | The bounds are reached: TTL apart in the verifier, one nanosecond more in the resolver |
| KeyCacheRuns.UnknownKids | pkg/oidc/verifier.go:133-148 | Kids the set does not have are refused, as unauthorized or as failures of the fetch, and fetched for at every single call, so the bound needs known kids |
| KeyCacheRuns.Outage | pkg/auth/resolver.go:215-306 | While every fetch fails or brings no usable key the cache stays; it goes on answering within the TTL, and every other call with a kid fails |
| KeyCacheProtocol.OneSnapshot | pkg/auth/resolver.go:293-300 | Under any interleaving keys and `fetchedAt` belong to one stored set with a usable key, and store times never decrease |
| KeyCacheProtocol.RefreshChanges | pkg/oidc/verifier.go:152-188 | A step logs a snapshot if and only if it stores a set with a usable key; the cache is then that set's keys with the current time, and otherwise stays, as after a failed refresh; `fetchedAt` never goes back |
| KeyCacheProtocol.FirstReadSafe | pkg/oidc/verifier.go:133-139 | A key returned without refreshing is the last stored set's and within its TTL |
| KeyCacheProtocol.FirstReadExact | pkg/oidc/verifier.go:129-139 | What the first read decides in every reachable state: refused without a kid, answered from the last stored set within the TTL, fetching otherwise |
| KeyCacheProtocol.SecondReadExact | pkg/oidc/verifier.go:143-149 | What the read after a fetch decides: answered from the last stored set, in the resolver within the TTL only, or refused |
| KeyCacheProtocol.FetchesFail | pkg/oidc/verifier.go:140-188 | A fetch that fails or brings no usable key fails its own call and changes no other |
| KeyCacheProtocol.SecondReadSafe | pkg/oidc/verifier.go:140-150 | A key returned after refreshing is the last stored set's: within its TTL in the resolver, stored no earlier than by this very call in the verifier |
| KeyCacheProtocol.SecondReadFresh | pkg/oidc/verifier.go:140-150 | The key that the verifier returns after refreshing is within its TTL if and only if a set was stored less than the TTL ago by this call or after it; so it is if the call's own store is that recent, and only then if nobody stored since |
| KeyCacheProtocol.StaleSecondRead | pkg/oidc/verifier.go:143-149 | A run in which the verifier returns a key past its TTL |
| TokenCache.ClientCredentialsProvider.GetToken | pkg/oidc/token_provider.go:49-95 | New token and expiry, answer and requests of a call, given its times and what a request would bring |
| TokenCache.CachedToken | pkg/oidc/token_provider.go:52-54 | A call without a request is served a token that an earlier request of the run brought and that has more than 30 s of its lifetime left |
| TokenCache.AnswersOfRun | pkg/oidc/token_provider.go:49-95 | For every call of every run: it requests exactly unless the token it finds has more than 30 s left; a request that brings a token is answered with that token, trimmed, and stores it with its expiry; one that does not fails and stores nothing; a call without a request gets the stored token |
| TokenCache.FailuresKeep | pkg/oidc/token_provider.go:71-94 | Any number of failing requests in a row leaves token and expiry as they were |
| TokenCache.RequestRate | pkg/oidc/token_provider.go:49-95 | Over any run whose requests bring lifetimes of at least L, n requests take at least (n-1)*(L - 30 s) |
| TokenCache.RateReached | pkg/oidc/token_provider.go:52-54 | The rate is reached |
| TokenCache.QuotedLifetime | pkg/oidc/token_provider.go:105-110 | A quoted positive number of seconds is the lifetime if and only if it is at most 9223372036; beyond, the product wraps |
| TokenCache.DefaultLifetime | pkg/oidc/token_provider.go:97-112 | A response without `expires_in`, or with one that is not a positive number or quoted integer, lives for five minutes |
| TokenCache.AtoiSpec | pkg/oidc/token_provider.go:107-109 | Digits, with or without a sign, are read as a decimal number that fits into 64 bits; any other text is refused |
| TokenCache.WrappedLifetime | pkg/oidc/token_provider.go:105-110 | The quoted lifetime of 9223372037 seconds becomes negative |
| Normalize.KeptSpec | pkg/auth/access.go:131-142 | The kept positions are, in order, exactly those of non-blank values that are the first of their spelling ignoring case |
| Normalize.NormalizeStrings | pkg/auth/access.go:128-145 | The loop with its `seen` map returns the trimmed values at the kept positions; pkg/redpanda/client.go has the same function |
| Normalize.NormalizedIsNormal | pkg/auth/access.go:128-145 | The result is trimmed, has no blank and no two values equal ignoring case, and is a subsequence of the trimmed input |
| Normalize.Idempotent | pkg/auth/access.go:128-145 | A list is left alone if and only if it is normal; normalising twice is normalising once |
| Normalize.FirstWins | pkg/auth/access.go:128-145 | Later values change nothing about what earlier ones gave: the first spelling wins, and the order is kept |
| Normalize.MatchesSame | pkg/auth/access.go:94-98 | A flat search gives the same answer before and after, for every needle |
| Access.NormalizeContours | pkg/auth/access.go:173-204 | The loop returns the first contour of each spelling, with its lists normalised |
| Access.SameContours | pkg/auth/access.go:40-56 | Normalising changes no HasContour decision |
| Access.OwnerDecision | pkg/auth/access.go:34-37 | Somebody is the owner if and only if the trimmed role is "owner" in lower case; nobody is not |
| Access.ContourDecision | pkg/auth/access.go:40-56 | HasContour holds for the owner, and for a query that is not blank if and only if some contour has its trimmed lower-case spelling; never without an identity |
| Access.GroupDecision | pkg/auth/access.go:59-82 | HasGroup, likewise, over the flat groups and those of every contour |
| Access.PermissionDecision | pkg/auth/access.go:85-108 | HasPermission, likewise, over the flat permissions and those of every contour |
| Access.ContoursKept | pkg/auth/access.go:173-204 | The names after normalising are the normalised names, and each surviving contour keeps its own trimmed role and its own normalised lists |
| Access.IdentityNormal | pkg/auth/access.go:128-204 | A normalised identity has a trimmed role, and flat lists and contour names that are trimmed, not blank and distinct ignoring case |
| Access.GrantedAfter | pkg/auth/access.go:58-108 | After normalising exactly the flat items and those of surviving contours are granted |
| Access.NothingGained | pkg/auth/access.go:58-108 | A group or permission granted after normalising was granted before |
| Access.DecisionsSame | pkg/auth/access.go:58-204 | All decisions stay if and only if the identity is the owner or every item of a contour dropped for a blank or repeated name is granted elsewhere |
| Access.DistinctNames | pkg/auth/access.go:173-204 | With no contour name blank or repeated every decision stays |
| Access.RepeatedContour | pkg/auth/access.go:186-189 | An identity that loses a group and a permission by normalising |
| Access.NormalizeRules | pkg/auth/access.go:147-171 | For a given iteration order the loop returns the map in which the last usable entry of each trimmed key wins |
| Access.RulesOrder | pkg/auth/access.go:152-165 | The keys are the same for every iteration order; the map is, if and only if colliding keys agree on their values |
| Access.RulesDistinct | pkg/auth/access.go:152-165 | Distinct trimmed keys give one map, with each key's own normalised values |
| ErrorChain.CloneDetails | pkg/errors/app_error.go:188-199 | A new map with the same entries, or nil for none |
| ErrorChain.WithDetails | pkg/errors/app_error.go:74-91 | Empty details return the error itself; otherwise the result carries its own fresh copy of the details, and the call panics if and only if the first AppError is a nil pointer |
| ErrorChain.DetailsOf | pkg/errors/app_error.go:180-186 | A fresh copy of the details of the first AppError |
| ErrorChain.Isolated | pkg/errors/app_error.go:135-141 | Changing the caller's map and a map that was handed out leaves the error's details as they were |
| ErrorChain.ReadingsKept | pkg/errors/app_error.go:152-186 | Over chains of any length WithDetails keeps code, safe message and HTTP status and puts the new details, also when the result is wrapped again and again |
| ErrorChain.IsKept | pkg/errors/app_error.go:143-150 | For every AppError target with a code errors.Is answers the same after WithDetails; around a chain without an AppError it answers yes for the internal code alone |
| ErrorChain.UncodedTarget | pkg/errors/app_error.go:143-150 | For an AppError target without a code the answer stays, except that the replaced AppError itself matches before and not after |
| ErrorChain.OuterLost | pkg/errors/app_error.go:74-91 | For any other target and a chain with an AppError: the errors wrapped around the first AppError match before WithDetails and not after, every other target matches after as before |
| ErrorChain.InnerKept | pkg/errors/app_error.go:74-91 | For such a target and a chain without an AppError the answer stays |
| ErrorChain.Constructed | pkg/errors/app_error.go:34-72 | A constructed error has its own code and its kind's status, is its kind's sentinel, and another sentinel only by its own code |
| ErrorChain.ConstructedRead | pkg/errors/app_error.go:34-72 | A constructed error behind any number of wrappers reads with its own code and message, and with the HTTP status of its kind: 400, 401, 403, 404, 409 or 500 |
| ErrorChain.ReadFirst | pkg/errors/app_error.go:152-186 | Code, message, status and details are those of the first AppError of the chain; a status that is not positive reads as 500 |
| ErrorChain.ReadNone | pkg/errors/app_error.go:152-186 | A chain without an AppError reads as an internal error: common.internal, its message, 500, no details |
| ErrorChain.IsSpec | pkg/errors/app_error.go:143-150 | errors.Is says yes, or panics, if and only if the first error of the chain that settles the search matches by identity or code, or dereferences nil |
| KafkaHeaders.HeaderCarrierFromMap | pkg/redpanda/client.go:189-199 | For a given iteration order the loop returns the trimmed map in which the last writer of a key wins |
| KafkaHeaders.BuildHeaders | pkg/redpanda/client.go:120-123 | The headers are the carrier's entries, each once, in some order |
| KafkaHeaders.GetSpec | pkg/redpanda/client.go:168-175 | Get returns the value of the first header whose key is equal ignoring case, or the empty string if there is none |
| KafkaHeaders.HeadersReadBack | pkg/redpanda/client.go:114-199 | In any two iteration orders every header reads back its trimmed value in every spelling if and only if colliding keys have the same value |
| KafkaHeaders.AbsentHeader | pkg/redpanda/client.go:168-175 | A key that no header has in any spelling reads as the empty string |
| LastWins.CollectSpec | pkg/auth/resolver.go:276-292 | A name is in the map exactly when some item writes it, and has the value of the last one that does |
| LastWins.OrderTheorem | pkg/auth/access.go:152-165 | A map filled by ranging over another is the same for every order if and only if items that collide agree |
| CommaList.SplitCommaSeparated | config/service_identity.go:48-57 | The loop returns the trimmed non-blank parts, in order |
| CommaList.BrokerList | config/redpanda.go:50-67 | Agrees with splitCommaSeparated on every input, nil counting as empty |
| CommaList.JoinSplit | config/service_identity.go:48-57 | Splitting the join of a list gives it back if and only if its items are trimmed, not empty and free of commas |
| CommaList.SplitParts | config/service_identity.go:48-57 | Two values joined by a comma split into what each splits into; a value without a comma gives its trimmed text, or nothing if it is white space |
| CommaList.SplitJoinSplit | config/service_identity.go:48-57 | Splitting the join of a split value gives the same list |
| RsaExponent.DecodeExponent | pkg/oidc/verifier.go:201-204 | The shift-and-add loop on a 64-bit integer computes the big-endian value, wrapped once |
| RsaExponent.ExponentExact | pkg/oidc/verifier.go:201-205 | The exponent is the encoded value if and only if that is below 2^63, as it is for at most seven bytes |
| RsaExponent.LeadingZeros | pkg/oidc/verifier.go:201-204 | Leading zero bytes do not change the value |
| RsaExponent.DecodeMinimal | pkg/oidc/verifier.go:201-204 | Decoding the shortest encoding of a number gives the number |
| RsaExponent.EncodeDecoded | pkg/oidc/verifier.go:201-204 | Encoding a decoded byte string without leading zeros gives the bytes back |

## Left out

- HTTP requests, JSON decoding, JWT signatures and key arithmetic: what they yield is a parameter.
- `With` of the exporter: a clone shares the queue, the commands and the flags, so its calls are calls of the same model; the fields it adds only go into a document, which is opaque here.
- `Enabled`, `Check` and encoding of entries: a document is an opaque byte string.
- Fairness and real time: whether the worker is scheduled, a context ends or a tick arrives is open in every state; results are about safety, enabledness and termination of the loops.
- The initial key cache has an arbitrary time, since without keys it answers nothing whatever its age.
- `expires_in` as a number is a real number: rounding of float64 is not modelled, and what the platform makes of a value beyond the 64-bit range is a parameter.
- Non-ASCII white space and letter case, and ids that are not valid UTF-8.
- Errors that wrap several errors, and errors of incomparable types.
- Trace propagation into Kafka headers: the propagator injects nothing.
- `stringSet`, `hasAudience`, the Require functions and configuration getters: each is one lookup or one call with no state of its own, and nothing above depends on them.
- Details are copied one level deep: a detail value that is itself a map or a slice stays shared between the caller and the error; values are opaque here.
- gRPC, Fiber, Prometheus, Postgres, Redis, telemetry, the breaker registry, the validator and configuration loading.
