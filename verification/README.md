# Iris client and webhook receiver: a Dafny model

This project models the stateful core of the Iris SDK, a client that posts replies over HTTP/3 and a
receiver that admits signed webhooks, and proves what that core promises. `dafny verify dfyconfig.toml`
checks everything.

| component | modules |
|---|---|
| Error trees and classification | `ErrorTrees`, `ReplyOutcome` |
| The reply call: epoch signing, send and replay, decoding, retries | `ReplyCall`, `ReplyOutcome`, `ReplyBudget`, `ReplyResends`, `RetryTiming`, `DoublePrecision` |
| Concurrent protocols as step machines | `EpochCache`, `DialGuard`, `AdmissionClose` |
| Replay protection over whole runs | `ReplayWindow` |
| Canonical targets, queries and transcripts | `Text`, `Sorting`, `QueryCodec`, `CanonicalTarget`, `Canonicity`, `SentQuery`, `SentIsSigned`, `WebhookTranscript`, `WebhookAuth`, `WebhookAgreement` |
| Streams and bounded readers | `JsonBody`, `Multipart`, `FileBody`, `MediaChunks` |

## How it is modelled

- **Environment.** One logical call is a function of an arbitrary environment: for each attempt, what every
  signing, send, body read, close, replay and wait meets. Raw network, body and context errors hold no typed
  error of the client and no class sentinel; an error met while reading or closing a response body does not
  carry ErrNotSent (`PossibleEnvironment`). Nothing else is assumed of it.
- **Loops.** Each loop of the source is a method with a loop, proved equal to a specification function
  (`SendLoop`, `RetryPost`, `EncodeQueryComponent`, …); the theorems are about those functions. The readers
  (`BodyReader`, `TrailerReader`, `FileBodyReader`, …) and the request that signing changes are classes.
- **Concurrency.** A protocol is a state, the actions enabled in it and their effect, one action for each
  critical section, channel operation or foreign answer. Theorems quantify over every valid run. Clocks only
  move forward.
- **Foreign code.** SHA-256, HMAC, the JSON decoder, `netip` and Unicode case mapping are function parameters; the nonce store is
  SET NX with an expiry; `io.ReaderAt`, `io.Writer` and the response body are classes known by their contracts
  only. Durations are nanoseconds; int64 limits are explicit.

## Where the code and its stated intent differ

- *Sent query and signed query.* The client sorts printed `key=value` strings, the signer sorts (key, value)
  pairs and refuses repeated keys. `SentIsSigned.SentIsSignedExactly` gives the exact condition under which the
  target that is sent is the target that is signed; `SentIsSigned.ClashingKeysDiffer` is a parameter map
  (`a=1`, `a-b=2`) for which it is not. Single-valued prefix-free keys always agree.
- *Nonce lifetime.* The comment on the nonce lifetime says that two windows cover every reuse
  (webhook/handler_validation.go:277-282). For requests checked without delay that is so when the store still
  holds an entry at its expiry instant, and one instant short when it does not; the store's contract
  (webhook/nonce.go:8-20) leaves this open. In either case a request delayed between its header check and its
  nonce check can be accepted again. `ReplayWindow.DoubleAcceptanceExactly` and `PromptDoubleAcceptanceExactly`
  say exactly when, for both readings.
- *Exclusive classes.* That ErrTransport and ErrNotSent exclude each other is not a law of error trees
  (`ReplyOutcome.NestingCanMatchBoth`), but it holds of every error the client builds
  (`ReplyOutcome.ClientErrorsAreExclusive`).
- *Stray header spellings.* Signing replaces the canonical key of the signature headers only; one put into the
  map under another spelling survives, and the receiver may read it first.
  `WebhookAgreement.AcceptedInEveryOrderExactly` says exactly when the signed request is nevertheless accepted
  in every order of its fields.

## Model

| member | source | states |
|---|---|---|
| `ErrorTrees.IsReachesClaim` | internal/client/transport/errors.go:72-89 | By induction on trees with custom `Is` methods: an error matches a sentinel if and only if some node reachable by unwrapping claims it by itself. |
| `ErrorTrees.FindHTTPErrorFindsNode` | internal/client/transport/errors.go:103-128 | The search for an HTTP error fails exactly when the tree has none, and otherwise returns one of its nodes. |
| `ErrorTrees.HasStopFindsNode` | internal/client/transport/retry.go:30-36 | A stop marker is found exactly when the tree has one anywhere. |
| `ErrorTrees.ForeignMatchesNoClass` | internal/client/transport/errors.go:175-190 | An error made outside the client matches none of its classes and holds no HTTP error. |
| `ReplyCall.SendLoop` | internal/client/transport/execute.go:41-86 | The send-and-replay loop, with its reassigned request and the refresh flag it spends, computes the recursive specification `Send`. |
| `ReplyCall.RetryPost` | internal/client/transport/retry.go:62-133 | The retry loop terminates for every environment and its result and trace are those of the specification. |
| `ReplyOutcome.DiscoveryFailureIsNotSent` | internal/client/transport/auth_epoch.go:90-162 | Every failure of epoch discovery matches ErrNotSent and not ErrTransport, and no discovery response, not even a 409 with such a body, counts as a verdict on the request id. |
| `ReplyOutcome.BuildFailure` | internal/client/transport/auth_epoch.go:178-193 | A request that could not be built or signed never matches ErrTransport and never carries a verdict. |
| `ReplyOutcome.ExchangeClassified` | internal/client/transport/execute.go:41-86 | The error of one exchange matches ErrTransport exactly when the exchange left the outcome unknown, and its conflict code is the server's exactly when the answer is a verdict. |
| `ReplyOutcome.DecodeBodyUnknown` | internal/client/transport/execute.go:145-208 | Every decoding failure after a 2xx, alone or joined with a close failure, is an unknown outcome that matches no definite class. |
| `ReplyOutcome.SendShape` | internal/client/transport/auth_epoch.go:197-223 | Within an attempt every send but the last met a verified epoch mismatch, there is at most one replay, and it spends the budget. |
| `ReplyOutcome.KeepUnknownFaithful` | internal/client/transport/retry.go:156-167 | The kept error matches ErrTransport exactly when an outcome is unknown and the final error is no verdict; a verdict is returned untouched. |
| `ReplyOutcome.RetryWaitFaithful` | internal/client/transport/retry.go:137-148 | An interrupted wait reports an unknown outcome exactly when one is remembered. |
| `ReplyOutcome.TurnFaithful` | internal/client/transport/retry.go:86-132 | One attempt either ends the call faithfully or carries exactly what it left unknown to the next. |
| `ReplyOutcome.CallFaithful` | internal/client/transport/retry.go:62-133 | The same over every sequence of attempts, by induction. |
| `ReplyOutcome.OutcomeUnknownIsSticky` | internal/client/transport/retry.go:79-167 | For every environment: a failed call matches ErrTransport if and only if some send left the outcome unknown and the call did not end in a verdict; such an error holds no HTTP error and matches none of ErrNotSent, ErrPermanent, ErrAuthFailed, ErrRateLimited; a verdict reaches the caller with its code. |
| `ReplyOutcome.NestingCanMatchBoth` | internal/client/transport/errors.go:175-190 | Not every tree keeps ErrTransport and ErrNotSent apart. |
| `ReplyOutcome.ClientErrorsAreExclusive` | internal/client/transport/auth_epoch.go:147-162 | No error of discovery, building, sending or the whole call matches both. |
| `ReplyBudget.RetriedExactly` | internal/client/transport/retry.go:19-36 | The loop goes round exactly for a 429 and, with a request id, for every failed exchange whose faults are neither an egress denial nor an oversize response. |
| `ReplyResends.TurnSendsSafely` | internal/client/transport/execute.go:41-86 | Within an attempt and towards the next one, whatever comes before a send is a retried failure with its wait, or a mismatch of a signed request followed at once by its replay, and no attempt replays on a spent budget. |
| `ReplyBudget.CallBudget` | internal/client/transport/retry.go:86-132 | From any attempt on: at most one send per remaining attempt plus the replay if it is unspent. |
| `ReplyResends.CallSendsSafely` | internal/client/transport/retry.go:86-132 | The same from any attempt on: every send is safe, and at most one mismatch is replayed, none once the budget is spent. |
| `ReplyResends.SecondMismatchStops` | internal/client/transport/auth_epoch.go:197-223 | No two mismatches of a call are both followed by a send. |
| `ReplyResends.ResendSafetyAndBudget` | internal/client/transport/retry.go:62-133 | For every environment: at most maxAttempts + 1 sends; nothing is sent after a stop error (a failed build, re-sign, replay, close or wait, or a second mismatch), an egress denial, an oversize response or a clean success; without a request id every send but the last met a 429 or the one replayed mismatch, never an unknown outcome. |
| `ReplyBudget.GivesUpOnlyWhenExhausted` | internal/client/transport/retry.go:114-132 | A failed call that ends on an exchange it would retry has used all its attempts. |
| `ReplyBudget.RetryTimingBound` | internal/client/transport/retry.go:75-132 | For every environment: the k-th wait lies in [backoff/2, backoff], or in [backoff, 5 s] under Retry-After, with backoff = min(50·2^(k−1), 1000) ms, and all waiting is at most 5 s per retry. |
| `RetryTiming.BackoffDoubles` | internal/client/transport/retry.go:127-131 | The loop's doubling with a cap follows the closed form. |
| `RetryTiming.RetryDelayInBounds` | internal/client/transport/retry_after.go:79-89 | One delay lies within the bounds of its retry. |
| `RetryTiming.HalfJitter` | internal/client/transport/retry_after.go:20-28 | In double precision, with the rounding of the product: jitter stays between half the base and the base. |
| `DoublePrecision.ScaledBound` | internal/client/transport/retry_after.go:25-27 | A representable span times a draw below one, rounded to nearest even and truncated, stays within the span. |
| `RetryTiming.DelaySecondsSaturate` | internal/client/transport/retry_after.go:30-77 | A digit string of any length parses to its seconds, saturated at the largest duration (section 10.2.3 of RFC 9110). |
| `EpochCache.RunsKeepInv` | internal/client/transport/auth_epoch.go:48-100 | Every reachable state: a discovery in flight has an empty cache, an open channel and exactly one live leader; every waiter is parked on the current or an already closed channel. |
| `EpochCache.SingleFlight` | internal/client/transport/auth_epoch.go:48-100 | For any number of interleaved callers: at most one discovery in flight, only valid epochs cached or returned, successful loads = invalidations + (1 if cached). |
| `EpochCache.FinishClosesOpenChannel` | internal/client/transport/auth_epoch.go:76-89 | A leader closes an open channel, so no channel is closed twice. |
| `EpochCache.NoLostWakeUp` | internal/client/transport/auth_epoch.go:48-75 | Every waiter can go on now or as soon as the leader finishes, whatever the outcome. |
| `EpochCache.CachedUntilRejected` | internal/client/transport/auth_epoch.go:197-223 | A cached epoch survives every run that does not reject that very epoch. |
| `DialGuard.RunsKeepInv` | internal/client/transport/h3_dial_guard.go:171-299 | The protocol invariant holds in every state of every run. |
| `DialGuard.RefreshIsSingleFlight` | internal/client/transport/h3_dial_guard.go:228-282 | At most one refresh is in flight; each closes its own, still open, channel. |
| `DialGuard.AllowsetIsLatestResolve` | internal/client/transport/h3_dial_guard.go:255-299 | The allowset is the non-empty result of the latest successful resolve; failures and panics keep the old one. |
| `DialGuard.DenialsAreJustified` | internal/client/transport/h3_dial_guard.go:183-223 | A dial that saw an expired allowset and kept a live context is denied only after the refresh it joined had completed, by an allowset at least as new; an allowed address was resolved. |
| `DialGuard.RefreshesAreSpacedByTTL` | internal/client/transport/h3_dial_guard.go:228-282 | A live allowset triggers no lookup: the first refresh starts at least a ttl after initialization, every other one at least a ttl after the previous one ended, refresh j at least j − i of them after refresh i ended. |
| `AdmissionClose.RunsKeepInv` | webhook/handler.go:142-191 | The protocol invariant holds in every state of every run. |
| `AdmissionClose.WaitGroupDiscipline` | webhook/handler.go:231-273 | The WaitGroup count is the number of admissions between Add and Done, Done never makes it negative, no Add happens once Wait may have started, `closedCh` is closed at most once. |
| `AdmissionClose.NilMeansDrainedForever` | webhook/handler.go:142-171 | After CloseContext has returned nil no admission is running, then or in any continuation. |
| `AdmissionClose.CancelOnlyAfterDrainOrGrace` | webhook/handler.go:142-191 | The run context is cancelled only once the drain of a closed handler has completed or after some closer's grace context ended. |
| `ReplayWindow.RunsKeepInv` | webhook/handler_validation.go:58-82 | The protocol invariant holds in every state of every run. |
| `ReplayWindow.DoubleAcceptanceNeedsDelay` | webhook/handler_validation.go:229-282 | In every run, a second acceptance of a key implies a header-to-nonce delay of at least n1 − (ts − W) under a lifetime of 2·W, and the matching bound for any lifetime; the bound is strict, and the delay positive, when the store holds an entry at its expiry instant. |
| `ReplayWindow.PromptRequestsAreAcceptedOnce` | webhook/handler_validation.go:242-282 | Requests faster than that bound never share a key. |
| `ReplayWindow.OnlyVerifiedKeysAreRecorded` | webhook/handler_validation.go:156-183 | Only requests whose body hash and signature verified leave a key in the store. |
| `ReplayWindow.DoubleAcceptanceExactly` | webhook/handler_validation.go:229-282 | For both readings of the expiry instant: a double acceptance with first nonce check `first` and second delay `delay` exists if and only if the timestamp parses, ts − W ≤ first, and an entry made at `first` has expired at ts + W + delay. |
| `ReplayWindow.PromptDoubleAcceptanceExactly` | webhook/handler_validation.go:277-282 | Without delays a double acceptance exists if and only if the lifetime is below 2·W, or equal to it when the store drops an entry at its expiry instant. |
| `QueryCodec.EncodeQueryComponent` | internal/irishmac/canonical.go:176-198 | The builder loop computes `Encode`, whose alphabet, injectivity and inverse are proved. |
| `QueryCodec.DecodeQueryComponentStrict` | internal/irishmac/canonical.go:145-174 | The index loop computes `Decode`: every malformed triplet and every result that is not UTF-8 is refused. |
| `QueryCodec.EncodeRoundTrip` | internal/irishmac/canonical.go:145-198 | Strict decoding of an encoded string is that string for valid UTF-8, and fails for everything else. |
| `QueryCodec.EncodeInjective` | internal/irishmac/canonical.go:176-198 | Different byte strings have different encodings. |
| `QueryCodec.EncodeAlphabet` | internal/irishmac/canonical.go:176-198 | An encoding holds only unreserved bytes (section 2.3 of RFC 3986) and percent signs, hence none of the separators, and is empty only for the empty string. |
| `QueryCodec.EncodesExactlyNormalForms` | internal/irishmac/canonical.go:176-198 | A string is an output of the encoder if and only if it consists of unreserved bytes and upper-case triplets (section 2.1 of RFC 3986) of bytes that are not unreserved. |
| `CanonicalTarget.ParseCanonicalQuery` | internal/irishmac/canonical.go:95-126 | The loop accepts exactly the queries all of whose non-empty pieces decode, and yields their re-encoded pairs in order. |
| `CanonicalTarget.WriteQuery` | internal/irishmac/canonical.go:66-87 | The builder loop prints the pairs joined by ampersands. |
| `CanonicalTarget.CanonicalizeTarget` | internal/irishmac/canonical.go:37-88 | The whole procedure, with its in-place sort and duplicate test, computes `Canonical`. |
| `CanonicalTarget.PairLeIsTotalOrder` | internal/irishmac/canonical.go:128-143 | The comparator is a total order on pairs, a flag sorting before every value. |
| `Canonicity.PrintedQueryParses` | internal/irishmac/canonical.go:95-126 | Parsing a printed query gives its pairs back, in order. |
| `Canonicity.CanonicalReparses` | internal/irishmac/canonical.go:37-88 | A canonical target parses to the same path and to its pairs in canonical order. |
| `Canonicity.CanonicalIsIdempotent` | internal/irishmac/canonical.go:27-29 | `CanonicalTarget` is idempotent on everything it accepts. |
| `Canonicity.CanonicalIsCanonical` | internal/irishmac/canonical.go:37-143 | Two accepted targets have equal canonical forms if and only if their paths and their multisets of decoded pairs are equal. |
| `Canonicity.AdjacentTestIsComplete` | internal/irishmac/canonical.go:59-65 | After sorting, comparing neighbours finds every repeated key. |
| `Canonicity.DuplicateKeysRejected` | internal/irishmac/canonical.go:33-88 | `CanonicalRequestTarget` rejects a well-formed target for duplicates if and only if two pairs share a decoded key, and otherwise agrees with `CanonicalTarget`. |
| `SentQuery.CanonicalQueryString` | internal/client/transport/path.go:62-84 | The loops over the map and its values, and the sort, compute `QueryString`. |
| `SentQuery.MapOrderIsInvisible` | internal/client/transport/path.go:62-84 | Every iteration order of the map gives one query string. |
| `SentQuery.OrdersAgree` | internal/client/transport/path.go:53-84 | Where no key clashes, sorting printed strings and sorting pairs order two encoded pairs alike. |
| `SentIsSigned.SentQueryParses` | internal/client/transport/path.go:53-84 | The sent query always parses to exactly the parameters, as a multiset. |
| `SentIsSigned.SentIsCanonicalExactly` | internal/client/transport/path.go:53-84 | The sent target is a fixed point of `CanonicalTarget` if and only if the parameters are UTF-8, hold no empty flag beside others, and no key with a value clashes with a longer one. |
| `SentIsSigned.SentIsSignedExactly` | internal/client/signing/canonical.go:11-26 | The client signs exactly the target it sends (a fixed point of `CanonicalRequestTarget`) if and only if, besides, no key has two values. |
| `SentIsSigned.RepeatedKeysAreRefused` | internal/client/signing/canonical.go:11-15 | The signer refuses the sent target of a well-formed map for duplicates if and only if some key has two values. |
| `SentIsSigned.ClashIsSignedDifferently` | internal/client/transport/path.go:62-84 | Where single-valued keys clash, the client signs another target than the one it sends. |
| `SentIsSigned.PrefixFreeKeysAreSigned` | internal/client/transport/path.go:53-84 | Single-valued UTF-8 keys, none a prefix of another, are always signed as sent. |
| `SentIsSigned.ClashingKeysDiffer` | internal/client/transport/path.go:62-84 | A concrete well-formed map that is sent in one order and signed in another. |
| `WebhookTranscript.TranscriptIsInjective` | internal/irishmac/hmac.go:71-156 | For any case mapping: on newline-free fields the transcript determines the canonical authority, the upper-cased method, the target, timestamp, nonce, message id and lower-cased body hash. |
| `WebhookTranscript.NonceKeyIsInjective` | webhook/handler_validation.go:242-248 | The joined nonce key determines its four fields. |
| `WebhookAuth.OutgoingRequest.SignRequest` | webhooksign/sign.go:26-77 | On success exactly the six headers and the signed body are set, on failure the request is unchanged; success and failure are those of `MakeStamp`. |
| `WebhookAgreement.StampMembers` | webhooksign/sign.go:60-74 | The map after signing holds exactly the six stamped fields and what was there under other names or spellings. |
| `WebhookAgreement.StampedHeaders` | webhook/handler_validation.go:202-227 | With harmless strays the receiver reads back exactly the stamped values, in every order of the fields. |
| `WebhookAgreement.AcceptedInEveryOrderExactly` | webhook/handler_validation.go:117-183 | A stamped request passes the header, body and signature checks as the request the signer meant, in every order of its fields, if and only if no version header was in the map under another spelling and every other stray signature header carries the stamped value. |
| `WebhookAgreement.SignedRequestVerifiesExactly` | webhooksign/sign.go:26-77 | The same for what `signRequest` makes, delivered to a handler with the same secret, Host and request URI. |
| `WebhookAgreement.SignedRequestIsAcceptedOnce` | webhooksign/sign.go:26-77 | From any handler state, under that condition, with a timestamp in the window and a nonce not remembered, it is accepted; a repeat at any time before the nonce expires is turned away. |
| `WebhookAgreement.StrayVersionIsRefused` | webhook/handler_validation.go:202-218 | A version header left under another spelling makes the receiver refuse the signed request. |
| `JsonBody.ValidateJSONTrailer` | internal/client/transport/execute.go:237-263 | For any chunking and any read error: success means that min(513, length of the rest) bytes were read, all white space, and, within the limit, to a clean end; failure means an unexpected byte or a read error. |
| `JsonBody.ClassifyTrailerDrain` | internal/client/transport/execute.go:213-235 | No fault exactly when at most 512 bytes were drained to a clean end below the limit; the size limits and an unexpected byte stay visible; another read error becomes the drain deadline or the context's end when one has struck; every fault is a body fault. |
| `JsonBody.DecodeJSONBody` | internal/client/transport/execute.go:145-208 | For every body, chunking, read-ahead and read error: accepted if and only if the stream ends cleanly and is one decodable value, at most 512 white-space bytes and at most 16 MiB; at most 16 MiB + 1 bytes are read; every refusal is a body fault. |
| `Multipart.BodyReader.Read` | internal/client/multipart/writer.go:85-116 | A read delivers the next min(buffer, remaining) bytes of the concatenation and leaves the rest of the buffer alone; end of file exactly when nothing remains; never (0, nil) for a non-empty buffer. |
| `Multipart.ReadWithSizes` | internal/client/multipart/writer.go:85-116 | Any sequence of reads with any buffer sizes delivers exactly that much of the concatenation. |
| `Multipart.NewBodyFactory` | internal/client/multipart/writer.go:19-60 | The factory's length and digest are those of the concatenated chunks, and it fails exactly when the envelope check does. |
| `Multipart.DrainNewBody` | internal/client/multipart/writer.go:62-64 | Every body of one factory streams the hashed bytes, `bodyLength` of them. |
| `Multipart.ValidateReplyImages` | internal/client/multipart/limits.go:19-55 | The accumulating loop accepts exactly the lists within the count, single-image and total limits. |
| `Multipart.ValidImagesFitEnvelope` | internal/client/multipart/limits.go:57-75 | Images that pass validation, with metadata up to 64 KiB, a 32-byte boundary and detected content types, never exceed the 31 MiB envelope. |
| `FileBody.CopyReaderAtContext` | internal/client/multipart/file.go:248-316 | For any pattern of reads it terminates having written a prefix of the file; success means exactly the first byteLength bytes; a reliable source and sink succeed. |
| `FileBody.CheckedMultipartLength` | internal/client/multipart/file.go:193-205 | It succeeds if and only if no part is negative and the sum fits int64, and then returns the sum. |
| `FileBody.NewFileBodyFactory` | internal/client/multipart/file.go:137-191 | The digest and the length of a factory are those of prefix, file and suffix, within the envelope. |
| `FileBody.FileBodyReader.Read` | internal/client/multipart/file.go:207-246 | For every source: what a read delivers and what remains are together what remained before, or less when the source ended the file early; a reliable source never fails, and ends exactly at the end. |
| `FileBody.DrainFileBody` | internal/client/multipart/file.go:207-215 | For every source and every sequence of buffer sizes: a body as long as announced is the digested content; from a reliable source every prefix sent is a prefix of it, and enough reads deliver all of it. |
| `MediaChunks.Base64RoundTrip` | internal/client/transport/media.go:147-163 | Decoding an encoding gives the bytes back (section 4 of RFC 4648). |
| `MediaChunks.DecodesExactlyCanonicalChunks` | internal/client/transport/media.go:147-163 | A chunk decodes if and only if it is the canonical encoding (section 3.5 of RFC 4648) of a non-empty chunk no longer than requested, so the length pre-check refuses no legal chunk. |
| `MediaChunks.AcceptedChunkIsExact` | internal/client/transport/media.go:165-185 | A response is accepted if and only if it carries min(length, total − offset) bytes and marks the end exactly there; the sum never overflows int64. |
| `MediaChunks.StepsTile` | internal/client/transport/media.go:165-185 | Step i of a download covers exactly its i-th slice. |
| `MediaChunks.DownloadFinishes` | internal/client/transport/media.go:165-185 | A download has at most ceil(total / length) steps, and exactly that many when the end is marked. |
| `MediaChunks.DownloadReassembles` | internal/client/transport/media.go:165-185 | From a server of one content, the assembled bytes are the content if and only if the end is marked, if and only if ceil(total / length) steps were made. |

## Left out

- EpochCache, DialGuard and AdmissionClose are step machines over values: interleaving is captured, the update of fields in place and aliasing are not; liveness under a fair scheduler is not stated.
- The in-place sorts of `canonicalTarget` and `canonicalQueryString` are one call of a sort function; `Sorting.SortedIsUnique` shows that every correct sort gives the same sequence.
- SHA-256, HMAC, `encoding/json`, `netip`, DNS, QUIC, TLS, `http.Client` and Valkey themselves; cryptographic strength; pooled hashes; random nonces and boundaries.
- ReplayWindow: the millisecond rounding and the one-millisecond floor of the shipped store's expiry are not modelled; an entry expires exactly a lifetime after it was made.
- RetryTiming.HalfJitter: the bound is stated for bases below 2^53 ns; the loop's backoff is at most a second.
- `doGet` and the signed GET endpoints, `readErrorBody`, `parseHTTPErrorCode`, redaction, logging, metrics, trace propagation and options: one function each, without a property across calls.
- Validation of media identities, MIME types and digests, file names, thread and mention fields, webhook message fields, and image sniffing: settled by reading one function.
- `safePathSegmentToken` and the request DTOs.
