# Verified model of the password hook service

The service takes password events from a portal, puts an encrypted message for each on a queue, and lets worker
replicas carry the password to the directory, while a status store records per UPN (user principal name) how far that
has come. This project models the parts of it whose correctness is not visible from one function and proves what they
promise, for all inputs and all runs. `dafny verify dfyconfig.toml` checks all of it.

The project has five parts.

- **Sync protocol.** `SyncStatus` is the status store with its ordering guard; `Calendar` and `RedisStatus` are its
  second implementation, which compares formatted timestamps as strings and forgets expired keys. `WorkerSteps` is the
  protocol of one message as an automaton of effects, `Worker` and `Receiver` the imperative code on buffers that is
  proved to follow it, and `Submit` and `SubmitService` the producer, in the same two forms. `WorkerTraces` and
  `SubmitTraces` write out every trace of the two and prove that the automata have exactly these. `SyncProtocol` is the
  transition system of any number of submissions and replicas over both automata: every step of every party interleaves,
  answers are arbitrary, a call that reports an error may have taken effect, messages are delivered any number of times,
  and messages and records expire at any time. No clock assumption is made there. `RedisProtocol` runs it over the Redis
  store and proves that to be a refinement, `SyncRuns` holds concrete families of runs, and `Directory` compares what
  the directory holds with what the record says.
- **JSON strings.** `Utf8`, `JsonDecode`, `JsonStrings`, `JsonGrammar` and `JsonEncode`: the grammar of section 7 of RFC
  8259 and what its strings mean, the hand-written decoder against it, and the hand-written encoder against the decoder.
- **Time-windowed stores.** `NonceStore` and `RateLimiter`.
- **Network boundary.** `Cidr` and `SourceIp`: address arithmetic, configuration checks, and the forwarded-chain scan.
- **Buffers and aggregation.** `SensitiveRead`, `Metrics` and `MetricFlush`.

Instants are integer nanoseconds since Go's zero time. Code that updates state is a class or a method with loops,
proved against a specification function or predicate; the lemmas are about those specifications. The environment
(decryption, the processor, the queue, the dead-letter sink, the status store as seen by a caller, clocks) answers
nondeterministically. In `Worker` the ghost field `clean` is true as long as every sleep so far saw only zeroed
plaintexts and every dead letter, status write and settlement also a zeroed body; each method that returns it
unchanged shows that its own effects did.

Where the code and its intent differ, the model follows the code:

- The replay check promises that no timestamp and nonce pair is accepted twice. `time.Since` saturates at the least
  duration and negating that wraps, so a timestamp 2^63 ns or more ahead of the clock passes the skew check and can be
  replayed. Any other request can be replayed exactly if it is first used more than the nonce TTL before the latest
  reading its timestamp allows (`NonceStore.ReplayedExactly`, `NonceStore.SweptExactly`). The default TTL of twice the
  skew leaves no room for the time between the two clock readings (`NonceStore.SafeExactly`,
  `NonceStore.DefaultsHaveNoRoom`).
- The rate limiter reads the clock before it takes the lock, so readings can go back. Exactly the intervals that are
  short enough keep the bound of 2*limit - 1 (`RateLimiter.SlidingExactly`).
- Metric keys are joined with NUL, and label values such as the event type of a rejected request may contain NUL. Series
  without NUL are told apart (`Metrics.KeyIdentifiesSeries`); `Metrics.SharedRecordablyExactly` says exactly which
  series share their key with one that has NULs in a value. A flush loses nothing, but reports the values of all series
  of a key together, so what it reports is exact for exactly the series that share no key (`MetricFlush.FlushExactly`).
- After a status record expires, the pending write of a message already completed can come back, exactly under the
  condition of `SyncProtocol.PendingBackExactly`.
- The status record orders outcomes by enqueue time, but nothing orders the directory writes of different replicas. The
  directory may hold an older password than a synced record names. Agreement is left exactly by a processor call for a
  message whose enqueue time is not the recorded one, or by the synced mark of a newer message whose password the
  directory does not hold (`Directory.AgreesExactly`); a worker could make the first comparison before the call.
- A malformed portal network is noticed by the overlap check only if there is a trusted network to compare it with
  (`SourceIp.RejectOverlapping`); the other checks catch it.

The string guard of the Redis store agrees with the time guard for all years 0-9999. The source times it compares are in
that range as long as every message comes from the producer, which stamps it in UTC and fails to write it as JSON in
a later year. For other years `Calendar.OrderExactly` gives the exact condition.

## Model

| member | source | states |
|---|---|---|
| `SyncProtocol.RecordsAreBacked` | internal/migration/service.go:101-171 | In every interleaving of submissions, replicas, redeliveries, failed-but-applied calls and expiries, a stored `synced` record has an earlier processor success, a `pending` one an accepted message and a `failed` one a dead letter, each for a message with that normalized UPN and that enqueue time |
| `SyncProtocol.NoSilentLoss` | internal/worker/worker.go:248-323 | In every run each accepted message is in exactly one of queue, completed and expired, and a completed one was processed successfully or has a dead letter |
| `SyncProtocol.LatestWriteWins` | internal/syncstatus/status.go:100-117 | In every run and for every key, what is stored is exactly the first write with the greatest (source time, precedence) since the key last expired, and nothing if there is none, so the late pending write after the enqueue is harmless between expiries |
| `SyncProtocol.StoredExactly` | internal/syncstatus/status.go:100-134 | In every run an outcome is the stored one if and only if it was written since the key's last expiry and nothing written since then outranks it |
| `SyncProtocol.PendingBackExactly` | internal/migration/service.go:159-167 | The exact condition of the race: the pending record of a message once marked synced is back if and only if the key expired after that mark, the pending write came after the expiry, and no outcome of the message and no write of a later one did |
| `SyncProtocol.NeverDowngraded` | internal/syncstatus/status.go:100-117 | From any state on, a record whose key does not expire only moves up, and a synced record is not replaced by anything with its source time |
| `SyncProtocol.AlreadySyncedIsJustified` | internal/migration/service.go:132-138 | In every run a submission skipped as already synced belongs to a UPN one of whose messages was processed successfully |
| `SyncProtocol.SyncPendingIsJustified` | internal/migration/service.go:177-197 | In every run a submission skipped as pending belongs to a UPN with an accepted message whose pending write took effect not after the submitter's clock reading and less than the TTL before it |
| `SyncProtocol.InvKept` | internal/worker/worker.go:248-323 | Every action of the system keeps the inductive invariant (conservation, backed writes, worker and submitter phases) |
| `SyncProtocol.Reachable` | internal/migration/service.go:101-171 | The invariant holds in every state that any run reaches |
| `SyncProtocol.DoGrows` | internal/worker/worker.go:248-323 | No action forgets an acceptance, a success, a dead letter or a status write |
| `SyncProtocol.WorkerWriteBacked` | internal/worker/worker.go:274-317 | A worker marks synced only after its processor success and failed only after its dead letter, for the message it holds |
| `SyncProtocol.SubmitterWriteBacked` | internal/migration/service.go:159-167 | A submission marks pending only a message that the queue has accepted |
| `SyncRuns.ExpiryLetsPendingBack` | internal/migration/service.go:159-167 | For every submission that reaches the queue there is a run in which, after an expiry, the late pending write of its message, already processed and completed, is stored |
| `SyncRuns.SubmitsUpToMark` | internal/migration/service.go:140-163 | After any run a submission past deduplication can be enqueued with its pending write still to come, with exactly the stated effect on every part of the state |
| `SyncRuns.WorkerSyncs` | internal/worker/worker.go:248-279 | From any state a queued message can be delivered, processed, marked and completed, with exactly the stated effect on every part of the state |
| `Directory.AgreesExactly` | internal/worker/worker.go:266-279 | Exactly when a synced record and the directory agree after a step, in every run, from the state before it: a processor call leaves them in agreement if and only if its message is the one the record names, a synced mark that takes effect if and only if the directory holds its password, and every other step changes nothing |
| `Directory.DisagreementHasCause` | internal/worker/worker.go:266-279 | Every disagreement in every run goes back to a processor call for a message the record did not name or to a synced mark whose password the directory did not hold |
| `Directory.DisagreementIsOneOfTwo` | internal/worker/worker.go:266-279 | In every run a disagreement is either an older password taken after the recorded one, or a newer one whose synced mark has not taken effect since the key's last expiry |
| `Directory.HeldAfterStep` | internal/worker/worker.go:400-411 | What the directory holds for a key changes exactly with the steps that take a password of the key |
| `Directory.AgreesInOrder` | internal/worker/worker.go:266-279 | They agree whenever passwords are taken in enqueue order and all their marks took effect since the last expiry |
| `Directory.OlderPasswordWins` | internal/worker/worker.go:266-279 | For any two submissions of one UPN there is a run that ends with the newer recorded as synced and the older's password in the directory |
| `SubmitService.Service.constructor` | internal/migration/service.go:78-99 | A pending TTL that is not positive becomes 300 seconds |
| `SubmitService.Service.Submit` | internal/migration/service.go:101-171 | For every request and every answer of the environment the trace is one of those written out, with the outcome or error that goes with it; whatever is encrypted is the password that was given, and success means that it was; the decision carries the identity and the UPN, and the password buffer is all zeros on every path |
| `SubmitService.Service.SubmitBorrowed` | internal/migration/service.go:104-170 | The body under the deferred zeroing: its trace is one of those written out, so the checks come in order with their errors, and only the original password bytes are encrypted, bound to the message that is enqueued |
| `SubmitService.Service.SkipLoginBootstrap` | internal/migration/service.go:177-197 | Whatever the store and the clock answer, the skip or the decision to go on is the one the protocol prescribes |
| `SubmitService.Service.Send` | internal/migration/service.go:140-170 | Stamp, encrypt the password bound to the stamped message, enqueue that message, then a best-effort pending write, in that order, with failure at the first error before it |
| `SubmitService.Classify` | internal/migration/classifier.go:17-32 | The checks in their order classify every CN as the specification does |
| `SubmitService.AllDigits` | internal/migration/classifier.go:34-41 | The loop finds a character that is not a digit exactly if there is one |
| `SubmitService.AllLettersDigitsOrHyphen` | internal/migration/classifier.go:50-58 | The loop finds a character that is not a letter, a digit or a hyphen exactly if there is one |
| `SubmitTraces.SubmitsExactly` | internal/migration/service.go:101-171 | A trace is a submission that ends with an outcome if and only if it is written out as one: the refusals in their order, the look-up and clock reading of a login_bootstrap only, a duplicate exactly if synced or freshly pending, else stamp, encryption of the password, enqueue and pending mark of the same message |
| `SubmitTraces.EncryptsThePassword` | internal/migration/service.go:140-157 | In every submission, finished or not, each encryption is of the password, and each enqueue comes right after a successful encryption of the password bound to that very message |
| `SubmitTraces.EnqueuedWasEncrypted` | internal/migration/service.go:149-170 | A submission that reports success has encrypted the password |
| `Submit.SkippedExactly` | internal/migration/service.go:107-138 | A submission is skipped if and only if it is for an external identity, or is an admitted login_bootstrap with a store that read a synced record, or read a pending record not in the future and younger than the TTL; other event types and store errors never skip an internal identity |
| `Submit.EnqueuedExactly` | internal/migration/service.go:155-170 | A submission that reports success has exactly one confirmed enqueue; one that fails or skips has none |
| `Submit.ClassifiesExactly` | internal/migration/classifier.go:17-58 | Exactly the CNs with an at sign are e-mail addresses; of the rest, trimmed, exactly those of digits only are student ids, and exactly those of letters, digits and hyphens that begin with a letter and are not all digits are employee ids |
| `Submit.BuildUPNExactly` | internal/migration/upn.go:14-32 | Although the trimmed CN is classified again, a UPN is built if and only if the CN is an internal identity and there is a domain, and it is the trimmed CN at the normalized domain |
| `Submit.UPNIdentifies` | internal/migration/upn.go:14-32 | The UPNs built for two internal identities are equal if and only if the trimmed CNs and the normalized domains are |
| `WorkerSteps.RetryBounds` | internal/worker/worker.go:369-398 | Along every run of the worker on a message: at most len(backoffs)+1 attempts, at least one for a decoded message, sleeps exactly the first backoffs in order, exhaustion only at len(backoffs)+1 |
| `WorkerSteps.PermanentEnds` | internal/worker/worker.go:369-398 | After a failed decryption or a permanent error there is no further attempt, call or sleep |
| `WorkerSteps.CompletionIsJustified` | internal/worker/worker.go:248-323 | A completion is preceded by a processor success or a written dead letter |
| `WorkerSteps.SettledOnce` | internal/worker/worker.go:248-323 | At most one successful settlement, and exactly one if processing returns without error |
| `WorkerTraces.RunsExactly` | internal/worker/worker.go:248-323 | A trace is a run of the worker on a message that returns a result if and only if it is written out as one: every attempt before the last failed transiently and slept its own backoff; the last succeeded, failed to decrypt, failed permanently, was the one after all backoffs, or was interrupted in its sleep; then marks, dead letter with the reason that fits, and settlement |
| `WorkerTraces.EndsExactly` | internal/worker/worker.go:369-398 | The retry loop ends in success, in cancellation or in a failure of the given kind if and only if its trace is written out as ending so |
| `Worker.NewWorker` | internal/worker/worker.go:156-211 | A worker is made if and only if no collaborator is missing, and an empty backoff list becomes 1s, 2s, 4s |
| `Worker.DoesAsJob` | internal/worker/worker.go:250-264 | In terms of what the JSON decoder reads: a complete password-sync message is handled under its own CN, UPN and enqueue time, and anything else is turned away with a dead letter that carries, under their own names, the fields that can be read |
| `Worker.Worker.ProcessMessage` | internal/worker/worker.go:248-323 | Every path does exactly what is written out for the decoded fields, to the returned result; all plaintexts were zero at every sleep and all plaintexts and the body at every dead letter, status write and settlement; a nil error means the message was settled and left the receiver's map, and it was completed exactly if the trace ends in an accepted completion |
| `Worker.Worker.ProcessPasswordSync` | internal/worker/worker.go:369-398 | The retry loop: its trace is written out as ending in the way the result reports (success, decryption failure, permanent error, all backoffs used, interrupted), 1 <= attempts <= len(backoffs)+1, exhaustion exactly at the last attempt, every plaintext zero at the end |
| `Worker.Worker.Attempt` | internal/worker/worker.go:400-411 | The plaintext is all zeros when the attempt returns, whatever the processor did to it |
| `Worker.Worker.RejectMessage` | internal/worker/worker.go:250-264 | An undecodable message: entry taken from the body, body zeroed, dead letter, then completion or abandonment |
| `Worker.Worker.SettleMessage` | internal/worker/worker.go:266-323 | The success, cancellation and failure paths after the retry loop, each with its effects in order on zeroed buffers |
| `Worker.Worker.AbandonNow` | internal/worker/worker.go:422-429 | Abandoning on cancellation returns the settlement's answer; after a failed dead letter it returns an error whatever the answer; the message is not completed |
| `Worker.Worker.CompleteNow` | internal/worker/worker.go:260-262 | Completing settles and completes the message exactly when it succeeds |
| `Worker.Worker.ZeroBody` | internal/worker/worker.go:508-513 | The body of a message, if there is one, is all zeros |
| `Worker.Worker.ProcessBatch` | internal/worker/worker.go:234-240 | The messages of one delivery are handled in order until cancellation or the first error; otherwise all of them are settled |
| `Worker.Worker.Run` | internal/worker/worker.go:213-242 | As long as the receive loop goes on, everything it has received is settled and no effect has seen a live secret |
| `Receiver.ServiceBusReceiver.constructor` | internal/servicebusqueue/queue.go:209-215 | A new receiver has received and settled nothing |
| `Receiver.ServiceBusReceiver.ReceiveMessages` | internal/servicebusqueue/queue.go:279-298 | Each delivered message gets a distinct new worker message with its own copy of the body, and the map stays received minus settled |
| `Receiver.ServiceBusReceiver.CompleteMessage` | internal/servicebusqueue/queue.go:300-314 | Only a message in the map can be settled, it leaves the map and counts as completed exactly when the service accepts, and both bodies are zeroed either way |
| `Receiver.ServiceBusReceiver.AbandonMessage` | internal/servicebusqueue/queue.go:316-330 | The same for abandonment, after which the message is settled but not completed |
| `SyncStatus.MemoryStore.Get` | internal/syncstatus/status.go:76-83 | The record of the normalized UPN, the empty record if there is none, an error exactly on a cancelled context |
| `SyncStatus.MemoryStore.Set` | internal/syncstatus/status.go:100-117 | The early returns of the code are the guarded write of the normalized UPN, and a cancelled context changes nothing |
| `SyncStatus.StoredIsFirstMaximum` | internal/syncstatus/status.go:100-117 | After any writes, a UPN's record is the earliest write with the lexicographically greatest (source, precedence), with that write's clock reading; there is none if and only if the UPN was never written |
| `SyncStatus.OutcomeExactly` | internal/syncstatus/status.go:100-134 | An outcome is the final one if and only if it was written and no write for the UPN exceeds it |
| `SyncStatus.LatestMessageDecides` | internal/syncstatus/status.go:100-134 | After any writes the record is of the latest source time, and within it synced if there was a synced write, else failed if there was a failed one, else pending |
| `SyncStatus.SameTimeReplaces` | internal/syncstatus/status.go:105-134 | A write of the same source time replaces the record exactly from pending to failed, from pending to synced and from failed to synced |
| `SyncStatus.OrderIsIrrelevant` | internal/syncstatus/status.go:100-117 | Any permutation of the same writes leaves the same source time and status |
| `SyncStatus.OtherUPNsUntouched` | internal/syncstatus/status.go:119-121 | What a UPN has depends only on the writes for that UPN |
| `SyncStatus.SameKeyExactly` | internal/syncstatus/status.go:119-121 | Two UPNs share a record if and only if they are equal but for ASCII case and the white space around them |
| `SyncStatus.NormalizeOnce` | internal/syncstatus/status.go:119-121 | A normalized UPN is its own key |
| `SyncStatus.NeverLowered` | internal/syncstatus/status.go:123-134 | Later writes leave a record as it is or replace it by a strictly greater one |
| `Calendar.FormatOrder` | internal/syncstatus/redis.go:28 | For all instants of years 0-9999, string order of the formatted timestamps is chronological order, and equal strings are equal instants |
| `Calendar.OrderExactly` | internal/syncstatus/redis.go:28 | For all instants, exactly when the string order of an earlier and a later timestamp is chronological, from year 0 on, across it and before it; different instants never have the same string |
| `Calendar.SameWidthOrder` | internal/syncstatus/redis.go:28 | For years written with the same number of digits the two orders agree, from year 0 on and within any one year |
| `Calendar.ParseFormat` | internal/syncstatus/redis.go:279-300 | Parsing a formatted timestamp gives the instant back |
| `Calendar.OrderFailsPastYear9999` | internal/syncstatus/redis.go:28 | For example, every instant of years 10000-19999 sorts before every one of years 2000-9999 |
| `Calendar.YearRange` | internal/syncstatus/redis.go:28 | The instants of years 0-9999 are exactly a numeric range |
| `Calendar.ToCivil` | internal/syncstatus/redis.go:28 | The Gregorian calendar reading is valid and denotes the instant it was taken from |
| `Calendar.FormatIs` | internal/syncstatus/redis.go:28 | The text of every reading of years 0-9999, field by field, zero padded, with its separators |
| `Calendar.DatesFollow` | internal/syncstatus/redis.go:28 | A day after every reading comes the next date, by the printed lengths of the months, at the same time of day |
| `Calendar.SameReading` | internal/syncstatus/redis.go:28 | No two calendar readings share an instant |
| `Calendar.YearStart` | internal/syncstatus/redis.go:28 | The first midnight of a year, from instant 0 for year 1 |
| `Calendar.CivilOrder` | internal/syncstatus/redis.go:28 | Field-by-field order of calendar readings is chronological order, from year 0 on and within any one year |
| `Calendar.RenderOrder` | internal/syncstatus/redis.go:28 | Fixed-width rendering turns string order into field-by-field order, for any layout |
| `Calendar.ScanRender` | internal/syncstatus/redis.go:28 | Scanning a rendered record gives its fields back, for any layout |
| `RedisStatus.NewRedisStore` | internal/syncstatus/redis.go:77-91 | A store is made if and only if there is a client, a key prefix and two TTLs of at least a millisecond; it starts empty |
| `RedisStatus.RedisStore.Mark` | internal/syncstatus/redis.go:302-321 | A Mark call that reaches the server runs the transition script on what is live at the server's clock, also when the answer is lost; it succeeds exactly if the answer comes back. A record of years 0-9999 that supersedes the one Get would have answered is answered until the pending TTL (for pending) or the terminal TTL (for synced and failed) has passed in whole milliseconds, and nothing from then on; any other changes no later answer |
| `RedisStatus.RedisStore.Get` | internal/syncstatus/redis.go:279-300 | The parsed hash of a live key, the empty record for a missing one, an error if the client fails or a field does not parse |
| `RedisStatus.ReadableExactly` | internal/syncstatus/redis.go:279-321 | The same for every key: what Get answers at any later time of the server after a Mark call, in terms of what it would have answered and of the TTL of the status; other keys are not affected |
| `RedisStatus.GuardsAgree` | internal/syncstatus/redis.go:30-50 | The script's string comparison rejects a write if and only if the memory store's guard does |
| `RedisStatus.SameTimeRejected` | internal/syncstatus/redis.go:30-50 | The script rejects a write of the same source time unless it goes from pending to failed, from pending to synced or from failed to synced |
| `RedisStatus.ScriptRefinesApply` | internal/syncstatus/redis.go:30-50 | One script run is one guarded write on the unexpired records |
| `RedisStatus.RedisRefinesMemory` | internal/syncstatus/redis.go:30-50 | Every sequence of script runs is a run of the memory store that forgets exactly the expired keys |
| `RedisStatus.SameBetweenExpirations` | internal/syncstatus/redis.go:314-321 | While nothing expires both stores hold the same records after any sequence of Mark calls |
| `RedisStatus.MarkScriptEncodes` | internal/syncstatus/redis.go:314-321 | For instants of years 0-9999, the arguments a Mark call passes to the script stand for that write |
| `RedisStatus.ReadsBack` | internal/syncstatus/redis.go:279-300 | Get returns exactly the record a stored hash stands for and never fails on what Mark stored |
| `RedisProtocol.RedisRefinesProtocol` | internal/syncstatus/redis.go:279-321 | Every run of the whole protocol over the Redis store, with status writes of years 0-9999, is a run of the protocol in which expired records lapse, so its theorems hold over Redis |
| `RedisProtocol.StepRefines` | internal/syncstatus/redis.go:279-321 | One step over Redis is the lapse of exactly the expired records followed by the same step of the protocol, and the hashes again stand for its store |
| `RedisProtocol.RedisRecordsAreBacked` | internal/syncstatus/redis.go:279-300 | In every such run, what Get answers is the empty record or is backed by a processor success, an accepted message or a dead letter |
| `Utf8.HeadOfEncode` | internal/handler/hook.go:226-286 | Reading an encoded scalar value gives it back, whatever follows |
| `Utf8.EncodeOfHead` | internal/handler/hook.go:226-286 | Encoding what was read gives the same bytes back |
| `Utf8.EncodeOrder` | internal/handler/hook.go:226-286 | Encodings are in byte order if and only if the characters are in code point order (section 1 of RFC 3629) |
| `Utf8.ValidMeansEncoded` | internal/handler/hook.go:226-286 | The grammar of section 4 of RFC 3629 accepts exactly the encodings of scalar sequences |
| `Utf8.SanitizeIsValid` | internal/handler/hook.go:226-286 | Replacing every byte that begins no well-formed sequence by U+FFFD gives valid UTF-8 |
| `JsonDecode.Hex4` | internal/handler/hook.go:316-332 | The loop returns the number of hexadecimal digits, and an error exactly if some byte is not one |
| `JsonDecode.TurnBound` | internal/handler/hook.go:241-283 | A turn of the decoding loop consumes input, appends one encoded scalar, and at most three bytes per byte consumed |
| `JsonDecode.DecodeJsonStringBytes` | internal/handler/hook.go:226-286 | The in-place loop accepts and returns what the specification does, never outgrows its one buffer, and leaves the whole buffer zero on every error |
| `JsonDecode.UnescapeIsValid` | internal/handler/hook.go:226-286 | Whatever the input, a successful decode is valid UTF-8 and at most three times as long as the body |
| `JsonDecode.UnmarshalPassword` | internal/handler/hook.go:210-224 | The previous value is zeroed on every path; null leaves no password; otherwise the decoded string |
| `JsonGrammar.DecodesToMeaning` | internal/handler/hook.go:226-314 | Decoding the text of any string of the grammar of section 7 of RFC 8259 gives the UTF-8 of its meaning: surrogate pairs are one character, unpaired surrogates U+FFFD |
| `JsonGrammar.EscapedPairDecodes` | internal/handler/hook.go:288-314 | For every character from U+10000 on, the escapes of its surrogates, in upper- or lower-case digits, decode to its UTF-8 |
| `JsonGrammar.EscapesAgree` | internal/handler/hook.go:241-283 | The one-letter escapes the decoder knows are those of section 7 of RFC 8259, with their characters |
| `JsonGrammar.UnitsAgree` | internal/handler/hook.go:316-332 | The decoder takes four digits exactly if they are hexadecimal, and reads the number they write |
| `JsonGrammar.DecodesAsSanitized` | internal/handler/hook.go:226-286 | For every input, decoding it is decoding its well-formed version, with U+FFFD for each ill-formed byte |
| `JsonGrammar.AcceptsExactlyTheGrammar` | internal/handler/hook.go:226-314 | For every input the decoder accepts if and only if the well-formed version of the input is a string body of that grammar, and then yields the UTF-8 of what it means |
| `JsonEncode.AppendJsonString` | internal/graphclient/client.go:241-263 | The byte loop appends the quoted, escaped value to what is there |
| `JsonEncode.HexDigitIs` | internal/graphclient/client.go:314-316 | Hexadecimal digits are written in lower case |
| `JsonEncode.EscapeOfRune` | internal/graphclient/client.go:241-263 | Each character is written as one grammar element that means it and begins no surrogate pair |
| `JsonEncode.RoundTrip` | internal/graphclient/client.go:241-263 | Decoding the encoder's output gives the value back if and only if the value is valid UTF-8 |
| `JsonEncode.RoundTripSanitizes` | internal/graphclient/client.go:241-263 | For every value, decoding its encoding gives the value with U+FFFD for each ill-formed byte |
| `JsonEncode.TerminatorIsFirst` | internal/graphclient/client.go:241-263 | For any value and any following text, the first unescaped quotation mark is the terminator |
| `JsonEncode.BuildPatchBody` | internal/graphclient/client.go:213-218 | The body, read as decoded string literals and the signs between them, is a password profile with the password and without a forced change |
| `JsonEncode.BuildCreateBody` | internal/graphclient/client.go:220-239 | The body, read so, is exactly the enabled account with the given values, in order, with and without a mail address, and the password profile |
| `JsonEncode.DecodedPasswordReachesGraph` | internal/handler/hook.go:210-224 | Any password the hook decodes is carried unchanged by both request bodies |
| `NonceStore.MemoryNonceStore.constructor` | internal/middleware/hmac.go:177-182 | A TTL that is not positive becomes the default |
| `NonceStore.MemoryNonceStore.Use` | internal/middleware/hmac.go:188-204 | The loop deletes exactly the entries older than the TTL; the nonce is new if and only if no entry survives, and is then recorded at the clock reading |
| `NonceStore.StoreIsUnsweptUses` | internal/middleware/hmac.go:188-204 | For any clock readings the cache holds exactly the accepted uses that no sweep removed |
| `NonceStore.RefusedExactlyWhenHeld` | internal/middleware/hmac.go:188-204 | A use is refused if and only if such a use exists |
| `NonceStore.PruningIsInvisible` | internal/middleware/hmac.go:188-204 | With a nondecreasing clock the pruned cache answers exactly as a log that never forgets |
| `NonceStore.SkewExactly` | internal/middleware/hmac.go:164-169 | The skew check passes if and only if the timestamp is within the skew, or is 2^63 ns or more ahead of the clock, where the saturated difference survives negation, or the skew is the greatest duration |
| `NonceStore.UnixTimeIs` | internal/middleware/hmac.go:114 | A timestamp counts the seconds from 1970-01-01T00:00:00Z of the calendar, unless the count from year 1 leaves 64 bits |
| `NonceStore.Admit` | internal/middleware/hmac.go:105-127 | A request is admitted exactly if it passes every check, only one that passes all others touches the nonce store, and without a store there is no replay check |
| `NonceStore.NoReplay` | internal/middleware/hmac.go:105-127 | No timestamp and nonce pair is accepted twice if ttl >= 2*skew + gap + lag, unless its timestamp was far in the future |
| `NonceStore.ReplayNeedsSweep` | internal/middleware/hmac.go:188-204 | In every run a second acceptance needs a request that sweeps the first use more than ttl after it, at the latest the replay itself |
| `NonceStore.ReplayedExactly` | internal/middleware/hmac.go:105-127 | For every skew, ttl, gap and lag, an admitted request can be replayed if and only if some request can sweep its first use in time, or the skew is the greatest duration |
| `NonceStore.SweptExactly` | internal/middleware/hmac.go:105-127 | Without a lag, or with the clock more than 2^63 ns before the end of 64-bit seconds, such a request exists if and only if the first use is more than ttl before the timestamp plus skew, gap and lag |
| `NonceStore.SafeExactly` | internal/middleware/hmac.go:105-127 | For all 64-bit durations, only timestamps that were far in the future can be replayed if and only if ttl >= 2*skew + gap + lag |
| `NonceStore.FarFutureIsReplayed` | internal/middleware/hmac.go:105-127 | A timestamp far in the future when first checked can be replayed under any 64-bit ttl, gap and lag |
| `NonceStore.DefaultsHaveNoRoom` | internal/config/config.go:108-109 | With the default 30s and 60s, only far-future timestamps can be replayed if and only if gap and lag are both zero |
| `RateLimiter.Limiter.constructor` | internal/middleware/ratelimit.go:54-78 | Defaults of 500 requests and one second for values that are not positive |
| `RateLimiter.Limiter.Allow` | internal/middleware/ratelimit.go:189-204 | Admits exactly as the window specification says, and the counts change in the entry of the key at most |
| `RateLimiter.KeysAreIndependent` | internal/middleware/ratelimit.go:189-204 | After any run over the shared counts, each key has exactly the window of its own calls |
| `RateLimiter.TalliesAgree` | internal/middleware/ratelimit.go:189-204 | What a run of the limiter admits of a key, in an interval or in a window, is what that key's calls alone would be admitted |
| `RateLimiter.WindowBound` | internal/middleware/ratelimit.go:189-204 | In every run each counting window of a key admits at most the limit |
| `RateLimiter.SlidingBound` | internal/middleware/ratelimit.go:80-108 | In every run whose readings go back by at most the lag, any half-open interval of at most one window length, and with a limit above one at most window - lag + 1, admits at most 2*limit - 1 requests of a key; with a limit of two also a single instant while the lag is below two windows |
| `RateLimiter.SlidingExactly` | internal/middleware/ratelimit.go:80-108 | These are exactly the interval lengths for which the bound holds in every run |
| `RateLimiter.ThreeWindows` | internal/middleware/ratelimit.go:80-108 | Beyond that length a lag admits 3*limit - 2 requests within one window length |
| `RateLimiter.FourAtOnce` | internal/middleware/ratelimit.go:80-108 | With a lag of two windows a single instant admits 3*limit - 2 |
| `RateLimiter.ThreeAtOnce` | internal/middleware/ratelimit.go:80-108 | With a lag above the window a single instant admits at least 3*limit - 3 |
| `RateLimiter.SlidingBoundAttained` | internal/middleware/ratelimit.go:189-204 | Without any lag the bound is attained for every limit and every window of at least two ns |
| `Cidr.ParseCidr` | internal/config/config.go:373-383 | The network of an address and prefix is aligned, of that prefix length and width, and contains the address |
| `Cidr.ContainsSamePrefix` | internal/config/config.go:373-383 | The network of an address and prefix length holds exactly the addresses of the same width that begin with the same bits |
| `Cidr.PrefixIsQuotient` | internal/config/config.go:373-383 | Addresses begin with the same bits if and only if they are equal after division by the size of the network |
| `Cidr.NetRange` | internal/middleware/ratelimit.go:217-224 | Masked comparison holds exactly for the addresses from the first to the last of the network |
| `Cidr.OverlapIffShared` | internal/config/config.go:371-396 | The two-sided containment test finds an overlap if and only if some address is in both networks, for all prefixes and both widths |
| `Cidr.DottedRoundTrip` | deploy/terraform/main.tf:174-182 | The integer of a dotted address is the address |
| `Cidr.IpToIntOrder` | deploy/terraform/main.tf:174-182 | The integers of dotted addresses are ordered as the addresses are, part by part from the left |
| `Cidr.TerraformAgrees` | deploy/terraform/main.tf:187-198 | The interval formula gives the same verdict as the containment test for all pairs of IPv4 networks |
| `SourceIp.ValidateCidrs` | internal/config/config.go:354-365 | Accepts exactly the lists without a malformed value |
| `SourceIp.RejectUnrestricted` | internal/config/config.go:401-417 | Accepts exactly the well-formed lists without a zero-length prefix |
| `SourceIp.UnrestrictedExactly` | internal/config/config.go:401-417 | A value has a zero-length prefix if and only if it names every address of its family |
| `SourceIp.RejectOverlapping` | internal/config/config.go:371-396 | Accepts exactly if every pair of trusted and portal networks is disjoint and what is compared is well formed |
| `SourceIp.OverlapIsShared` | internal/config/config.go:371-396 | Two configured networks are taken to overlap if and only if some address begins with the leading bits of both |
| `SourceIp.ValidateNetworks` | internal/config/config.go:289-312 | The presence rules and the four checks accept exactly the valid network configurations |
| `SourceIp.ParseCidrs` | internal/middleware/ratelimit.go:206-215 | Every network kept is that of some well-formed value |
| `SourceIp.ParseKeeps` | internal/middleware/ratelimit.go:206-215 | The network of every well-formed value is kept |
| `SourceIp.CollectCidrs` | internal/middleware/ratelimit.go:206-215 | The appending loop collects exactly those networks, in order |
| `SourceIp.ContainsIP` | internal/middleware/ratelimit.go:217-224 | Finds the address if and only if some network contains it |
| `SourceIp.CoveredIsListed` | internal/middleware/ratelimit.go:206-224 | The parsed networks contain an address if and only if some configured value has its width and its leading bits |
| `SourceIp.ResolveSourceIP` | internal/middleware/ratelimit.go:121-165 | The client is the peer itself unless the peer is trusted, else the rightmost untrusted hop of a single well-formed chain, else unknown |
| `SourceIp.ClientIsDetermined` | internal/middleware/ratelimit.go:121-165 | That promise leaves no freedom: it determines the whole resolution |
| `SourceIp.SourceAllowed` | internal/middleware/ratelimit.go:111-113 | Allowed if and only if there is a client and a portal network contains it |
| `SourceIp.PortalIsUntrusted` | internal/config/config.go:301-312 | In every valid configuration no address has the leading bits of both a portal and a trusted value |
| `SourceIp.PortalPeerIsItself` | internal/middleware/ratelimit.go:121-165 | In every valid configuration a portal peer resolves to itself, whatever the forwarded header says |
| `SourceIp.LeftHopsAreIgnored` | internal/middleware/ratelimit.go:121-165 | For a trusted peer, well-formed hops added on the left of a usable chain change nothing |
| `SourceIp.AdmittedExactly` | internal/middleware/ratelimit.go:111-165 | In every valid configuration a request is admitted if and only if its peer has the leading bits of a portal value, or of a trusted one while its last hop without the leading bits of a trusted value has those of a portal value |
| `SensitiveRead.ReadAll` | internal/sensitiveio/read.go:9-29 | Returns exactly the bytes delivered, also on a read error; every abandoned buffer is all zeros; capacity follows the growth sequence and the copying is at most three times the capacity |
| `SensitiveRead.GrowZeroing` | internal/sensitiveio/read.go:31-43 | The data is copied, the old buffer is zeroed to its full capacity, the new capacity is the larger of the minimum and one and a half times the old |
| `SensitiveRead.Grow` | internal/sensitiveio/read.go:31-43 | Every growth step of the loop strictly grows the capacity and keeps the ledger of copies |
| `SensitiveRead.ReadMore` | internal/sensitiveio/read.go:18-24 | Bytes read plus bytes to come stay the same; the window offered is never empty |
| `Metrics.Collect` | internal/azuremonitor/metrics.go:260-293 | Stopping once there are as many labels as names drops none, in whatever order the map is walked |
| `Metrics.AllowedLabels` | internal/azuremonitor/metrics.go:260-293 | Exactly the nonblank labels with one of the nine names, trimmed |
| `Metrics.Sorted` | internal/azuremonitor/metrics.go:295-302 | The one ascending order of the names |
| `Metrics.KeyIdentifiesSeries` | internal/azuremonitor/metrics.go:250-258 | Two NUL-free series have the same key if and only if they are the same series |
| `Metrics.AllowedSeriesIsClean` | internal/azuremonitor/metrics.go:260-293 | After filtering, a series is NUL-free if its name and its label values are |
| `Metrics.SharedExactly` | internal/azuremonitor/metrics.go:250-258 | Over all names and labels, a series shares its key with another if and only if the key contains two NULs |
| `Metrics.SharedRecordablyExactly` | internal/azuremonitor/metrics.go:250-293 | Over the series the recorder can hold, one shares its key with another if and only if it has two labels or more, or the value of its only label spells out a later label between NULs |
| `Metrics.EventTypeCollides` | internal/handler/hook.go:70-82 | For example, one event type with NULs in it has the key of an event type and an identity type |
| `Metrics.ValueSpellsLabel` | internal/azuremonitor/metrics.go:250-258 | A value that spells out the next label gives the same key as having that label |
| `MetricFlush.MetricRecorder.Add` | internal/azuremonitor/metrics.go:107-130 | A blank name is ignored; otherwise the point of the series takes in the value |
| `MetricFlush.MetricRecorder.Drain` | internal/azuremonitor/metrics.go:81-90 | The drained points are exactly the recorded ones, each once, and none stays |
| `MetricFlush.KeyConserved` | internal/azuremonitor/metrics.go:107-130 | For any samples, there is a point for exactly the observed keys, and it summarizes exactly the values observed under its key |
| `MetricFlush.SeriesConserved` | internal/azuremonitor/metrics.go:107-130 | For any samples, every observed series has a point at its key, which is the exact summary of its values (count, sum, minimum, maximum) if and only if no other observed series shares the key |
| `MetricFlush.CleanIsUnshared` | internal/azuremonitor/metrics.go:250-258 | Series without NUL characters share their keys with no other such series |
| `MetricFlush.AddedIsRecordable` | internal/azuremonitor/metrics.go:107-130 | What add accepts under a NUL-free metric name meets the condition of the flush theorems, whatever the label values |
| `MetricFlush.GroupAll` | internal/azuremonitor/metrics.go:155-163 | The grouping loop puts each point in the group of its name and label names, in order |
| `MetricFlush.BuildPayload` | internal/azuremonitor/metrics.go:179-204 | One series per point, values in the order of the first point's label names |
| `MetricFlush.AzureMonitorPayloads` | internal/azuremonitor/metrics.go:155-177 | The payloads depend only on the points, not on the order they were drained in |
| `MetricFlush.SentOnce` | internal/azuremonitor/metrics.go:155-177 | A point is one series of one payload |
| `MetricFlush.SamePayloadExactly` | internal/azuremonitor/metrics.go:155-177 | Two points are sent in one payload if and only if they have the same metric name and the same label names |
| `MetricFlush.OnlyPointsSent` | internal/azuremonitor/metrics.go:179-204 | Every series that is sent is one of the points |
| `MetricFlush.SentAligned` | internal/azuremonitor/metrics.go:179-204 | A series carries its point's statistics, and each dimension value is the label of its own dimension name, whatever the label values |
| `MetricFlush.FlushConserves` | internal/azuremonitor/metrics.go:81-105 | A flush of recordable samples sends the point of each observed key exactly once, aligned with its dimension names, with the exact summary of the values under the key |
| `MetricFlush.FlushExactly` | internal/azuremonitor/metrics.go:81-105 | What a flush reports at the key of an observed series is exact for that series if and only if no other observed series shares the key |

## Left out

- SubmitService.Service.Submit: the trace id, display name, mail and envelope fields of the message and the text of errors are not modelled.
- SubmitService.Service.SubmitBorrowed: as for Submit, errors are kinds without the text or the wrapped cause.
- SubmitService.Service.Send: the envelope that the encrypter returns is not modelled; the additional data is the message it is bound to.
- Worker.NewWorker: the batch size, the settlement timeout and the delay after an empty delivery are not modelled.
- Worker.Worker.RejectMessage: the failure time, kind and description of a dead letter are not modelled.
- Worker.Worker.SettleMessage: the failure time, kind and description of a dead letter are not modelled.
- Worker.Worker.Run: runs over any finite list of deliveries; the waiting after an empty delivery and the size of a batch are not modelled.
- RedisStatus.RedisStore.Get: `time.Parse` accepts some texts the layout does not produce; the model's Parse reads only what Format writes.
- RedisProtocol.RedisRefinesProtocol: the server drops a key as soon as a step sees it expired, so a server clock that goes back does not bring one back.
- Directory.AgreesExactly: two messages of one UPN with the same enqueue time are not told apart, because the record does not tell them apart.
- SensitiveRead.ReadAll: the reader is any finite script of answers, so a reader that answers forever without an error is not modelled.
- MetricFlush.MetricRecorder.Drain: only the locked part of a flush; a failed post loses the drained points, as in the code, and is not modelled.
- MetricFlush.BuildPayload: the time and namespace of a payload are not modelled.
- JsonEncode.BuildCreateBody: takes the trimmed display name, nickname and mail; deriving them from the user is not modelled.
- SyncProtocol.Reachable: duplicate sends by the queue client are not modelled; redelivery of an accepted message is.
- Cryptography (AES-GCM, HMAC, SHA-256, base64, random nonces) is a nondeterministic or given answer.
- HTTP, the Graph call, Service Bus, Redis and Azure Monitor clients, token acquisition and secret loading are foreign I/O.
- The Redis key digest: keys are the normalized UPNs themselves, so digest collisions are not modelled.
- Lua string comparison is byte-wise; a locale with another collation is not modelled.
- Lower-casing of UPNs and domains is modelled for ASCII letters only.
- Clock differences beyond 2^63 ns are modelled in the skew check but not in the nonce cache, the limiter or the pending TTL.
- Text-to-address parsing and IPv4-mapped IPv6 networks: addresses are integers with a width, masks act on the integer.
- Floating-point rounding of metric sums: values are reals.
- Mutexes: each locked method is one atomic step.
- Configuration loading, logging, access log, request ids, problem responses, build information, queue depth probe and credential lifecycles have no state or arithmetic beyond a single check and take no part in the properties above.
