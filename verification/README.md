# Verified model of the backup, observability, request-limit and token code

A Dafny 4.11 model of seven files of the ITSM platform, with proofs of what they promise.
`dafny verify dfyconfig.toml` checks everything.

| file | models |
|---|---|
| `Retention.dfy`, `RetentionLaws.dfy`, `BackupStore.dfy` | `scripts/backup-retention.py` |
| `BackupRun.dfy` | `scripts/run-backup.py` |
| `BackupCrypto.dfy` | `scripts/backup_crypto.py` |
| `Redaction.dfy`, `LogValues.dfy` | log redaction in `backend/app/core/observability.py` |
| `Metrics.dfy`, `Labels.dfy`, `Exposition.dfy`, `MetricsText.dfy` | the metrics registry and its text in `backend/app/core/observability.py` |
| `BodyLimit.dfy` | `RequestBodyLimitMiddleware` in `backend/app/core/middleware.py` |
| `Base64Url.dfy`, `Passwords.dfy`, `Tokens.dfy` | `backend/app/core/security.py` |
| `Percentile.dfy`, `Evidence.dfy` | the report of `scripts/run_performance_acceptance.py` |
| `Options.dfy`, `Ordering.dfy`, `Text.dfy` | optional values, counters, sorting, splitting and decimal integers, shared by the others |

**Main results.** Retention is a path-independent choice: however arrivals, prunings and
prunings cut short by an I/O error interleave, a final pruning leaves exactly what one pruning
of everything would leave. The streaming encryption is the whole-message transform for every
split of the reads, and with faults at any step the destination is at every moment absent or
complete. Redaction is a closure onto the clean strings, and on nested values onto the
scrubbed ones, and what it leaves alone is stated for every string and value. Every counter of
the metrics registry describes one log under any interleaving, and the rendered text reads back
to the request counts of that log. The body limiter bounds what any application receives in any
run. base64url, password records and tokens round-trip, and
what the decoders accept is stated exactly, for every string.

**What is a parameter.** Calendar keys (any functions of a timestamp), the AES-GCM keystream and
tag, the nonce and other random bytes, PBKDF2, HMAC, the JSON codec, clocks, `str.lower`, the
decimal formats of floats, the bodies of error pages, the faults of the disk, the sizes of its
reads, the messages of the server and the behaviour of the wrapped application. Timestamps are
integers, durations are reals.

**Found on the way** (each is a statement below, not a change of the code):

- A negative limit makes a Python slice count from the end, and retention is then no longer
  idempotent: on one artifact in each of enough months a second pruning deletes more. The
  refusal in `main` is exactly what is needed (`IdempotentIffNonNegative`).
- A fresh backup survives every admissible policy if and only if it is the newest of its
  directory (`AlwaysKeptIffNewest`). A clock that runs behind loses it to any newer artifact of
  the same day, week and month, and the run then fails on its own manifest (`NewestRunsSucceed`).
- The artifact of an empty source has 36 bytes and is never opened again (`OpenSeal`).
- `encrypt_file` on a source named like its own `.part` file removes the source and fails
  (`EncryptFile`); `decrypt_file` does the same, unless the source is too short (`DecryptFile`).
- The "truncated" branch inside the decryption loop is reached only if the file shrinks
  meanwhile: on an unchanged file the loop ends with `remaining` at zero (`DecryptStream`).
- `verify_password` raises, instead of returning False, exactly on records whose base64 is
  malformed (`VerdictMeaning`), for example `pbkdf2_sha256$A$A` (`MalformedRecordRaises`).
- `decode_token` lets other exceptions than the 401 escape exactly on strings with at least two
  dots that are not ASCII, or are correctly signed around a payload that is no base64, fails in `json.loads`
  with another error than JSONDecodeError, or has an `exp` that is no number (`EscapesExactly`,
  with two such strings in `EscapingTokens`).
- The `requests` figure of the load report counts the exceptions of websocket workers too
  (`EveryEventCounts`).

## Model

| member | source | states |
|---|---|---|
| `Retention.NewestFirstSorts` | scripts/backup-retention.py:19-23 | the sort is a descending permutation in which equal times keep their input order |
| `Retention.NewestFirstIsStrict` | scripts/backup-retention.py:19-23 | on path-sorted input the order is strict: newest first, equal times by path |
| `Retention.PathOrder` | scripts/backup-retention.py:73 | paths are ordered by their parts: the one that ends first, or has the smaller part where they first differ |
| `Ordering.StringOrder` | scripts/backup-retention.py:73 | and parts by their characters, in the same way |
| `Retention.SetDefaults` | scripts/backup-retention.py:32-38 | each kind's dict gets the artifact under its own key unless the key is there |
| `Retention.FillBuckets` | scripts/backup-retention.py:25-38 | after the pass every kind's dict is the one of the whole ordered list |
| `Retention.BucketMeaning` | scripts/backup-retention.py:30-38 | the values of a dict, in order, are the first artifacts of the distinct keys, in order, and all of them |
| `Retention.SliceMeaning` | scripts/backup-retention.py:39-40 | a slice keeps the artifacts that are first of their bucket with fewer buckets before them than the slice is long, also for negative limits |
| `Retention.RetentionPlan` | scripts/backup-retention.py:12-43 | for any list and any limits, keep is the head plus the leading representatives of each kind; expired is the rest of the input |
| `RetentionLaws.PlanOnSets` | scripts/backup-retention.py:19-43 | on the list that `main` builds, the loop keeps exactly: the overall newest, and the newest of a bucket when fewer buckets than the limit have a newer artifact |
| `RetentionLaws.PlanMeaning` | scripts/backup-retention.py:19-43 | what the loop keeps, field by field: the newest, and the newest of a day, week or month with fewer newer days than the daily, newer weeks than the weekly or newer months than the monthly limit; negative limits included |
| `RetentionLaws.KeptMeaning` | scripts/backup-retention.py:24-43 | the same for any set of artifacts |
| `RetentionLaws.Heritage` | scripts/backup-retention.py:24-43 | what is kept among many is kept among fewer |
| `RetentionLaws.Outcast` | scripts/backup-retention.py:24-43 | deleting any part of the expired artifacts changes nothing about what is kept |
| `RetentionLaws.PathIndependence` | scripts/backup-retention.py:19-43 | keep(keep(A) + B) = keep(A + B) for all sets and non-negative limits |
| `RetentionLaws.GrowsWithLimits` | scripts/backup-retention.py:39-40 | larger limits keep at least as much |
| `RetentionLaws.SizeBounds` | scripts/backup-retention.py:39-42 | a non-empty directory keeps at least one and at most max(1, daily + weekly + monthly) artifacts |
| `RetentionLaws.SpreadKept` | scripts/backup-retention.py:30-42 | of artifacts that share no day, week or month, exactly the newest are kept, as many as the widest of the three slices |
| `RetentionLaws.NegativeLimitDrops` | scripts/backup-retention.py:40 | with a negative limit, planning enough such artifacts a second time keeps strictly fewer |
| `BackupStore.InstantsApart` | scripts/backup-retention.py:25-30 | a calendar whose days, weeks and months all end has as many such instants as wanted |
| `BackupStore.NegativeLimitsLose` | scripts/backup-retention.py:40 | for every policy with a negative limit and every calendar with enough such instants, a tree of files that loses more artifacts by a second pruning |
| `BackupStore.IdempotentIffNonNegative` | scripts/backup-retention.py:58-60 | under such a calendar, pruning twice is pruning once on all trees and roots if and only if no limit is negative |
| `BackupStore.ManifestsAreApart` | scripts/backup-retention.py:73-93 | a manifest is never taken for an artifact and belongs to one artifact |
| `BackupStore.NothingKeptIsLost` | scripts/backup-retention.py:79-94 | at every moment of any history, what one pruning of everything arrived would keep is still there |
| `BackupStore.HistoryIndependence` | scripts/backup-retention.py:79-94 | arrivals, prunings and cut-short prunings in any order, then one pruning: the same as pruning everything once |
| `BackupStore.EveryDirectoryKeepsOne` | scripts/backup-retention.py:79-87 | every directory that holds artifacts keeps one of them |
| `BackupStore.TreeMeaning` | scripts/backup-retention.py:73-87 | what a tree keeps of each directory, field by field |
| `BackupStore.StreamsCoverTree` | scripts/backup-retention.py:74-87 | the streams are path-sorted, hold exactly the artifacts of their directories, and every artifact is in one |
| `BackupStore.DeletionSparesTheKept` | scripts/backup-retention.py:90-93 | removing expired artifacts with their manifests removes no other artifact and nothing outside the root |
| `BackupStore.Store.Scan` | scripts/backup-retention.py:73 | exactly the files below the root whose names end in ".enc", in the order of their path parts |
| `BackupStore.Store.PlanTree` | scripts/backup-retention.py:73-87 | keep is what every directory keeps of its own, expired the rest |
| `BackupStore.Store.DeleteAll` | scripts/backup-retention.py:90-94 | after a fault at call n exactly the first n unlinks, artifact and manifest alternating, have happened |
| `BackupStore.Store.Retain` | scripts/backup-retention.py:46-107 | which runs are refused, empty, finished or crashed, and the tree after each of them; only expired artifacts and their manifests ever go, no manifest before its artifact; finished and crashed runs are the steps of the histories above; files outside the root are untouched |
| `BackupStore.AlwaysKeptIffNewest` | scripts/run-backup.py:91-105 | kept under every admissible policy if and only if newest of its directory |
| `BackupStore.NewerEvicts` | scripts/run-backup.py:91-105 | a newer artifact of the same day, week and month evicts the fresh one under every policy |
| `BackupRun.EvidenceStays` | scripts/run-backup.py:105-115 | after an applied retention an artifact, and its manifest, are there if and only if it was kept |
| `BackupRun.FreshBackups` | scripts/run-backup.py:52-105 | a fresh backup newer than everything in its directory is kept; one with a newer artifact on its day, week and month is not |
| `BackupRun.NewestRunsSucceed` | scripts/run-backup.py:52-149 | a run whose backups are newer than everything in their directories succeeds if no step fails; with retention applied, a run whose backup is outrun fails |
| `BackupRun.SuccessLeavesEvidence` | scripts/run-backup.py:105-137 | after success both artifacts, both manifests and the run record are there |
| `BackupRun.SaveBoth` | scripts/run-backup.py:52-84 | both backups are in the tree exactly if both subprocesses worked and neither name was taken |
| `BackupRun.SuccessMeaning` | scripts/run-backup.py:52-149 | success step by step: names, limits, root, faults, what retention keeps of both fresh artifacts, manifests, record and alert |
| `BackupRun.Conclude` | scripts/run-backup.py:106-149 | the reads succeed exactly if retention kept both backups and the manifests parse; what the record leaves |
| `BackupRun.RunBackup` | scripts/run-backup.py:51-168 | exit code 0 if and only if every step succeeded and an applied retention kept both fresh artifacts; the tree wherever the run ends |
| `BackupCrypto.OpenSeal` | scripts/backup_crypto.py:33-41 | opening a sealed message gives it back, except the empty one, which is refused |
| `BackupCrypto.SealMeaning` | scripts/backup_crypto.py:33-41 | the artifact byte by byte: magic, nonce, every source byte under its keystream byte, the tag over magic and ciphertext |
| `BackupCrypto.OpenMeaning` | scripts/backup_crypto.py:51-75 | which files open, and to which bytes |
| `BackupCrypto.SealOpen` | scripts/backup_crypto.py:51-75 | a file opens to a plaintext if and only if it is that non-empty plaintext sealed under some nonce |
| `BackupCrypto.CryptAppend` | scripts/backup_crypto.py:38-39 | the stream of pieces is the transform of the whole |
| `BackupCrypto.EncryptStream` | scripts/backup_crypto.py:38-40 | for every split of the reads the loop writes the ciphertext of the whole source, unless a step fails |
| `BackupCrypto.WriteSealed` | scripts/backup_crypto.py:35-41 | the `.part` file ends as the complete artifact, and no other file is touched |
| `BackupCrypto.EncryptBody` | scripts/backup_crypto.py:32-42 | success exactly without a fault and with a readable source; every state on the way is safe |
| `BackupCrypto.EncryptFile` | scripts/backup_crypto.py:25-45 | the new disk for every outcome, the artifact byte by byte; without a fault the one outcome, and the loss of a source that is its own `.part` file; the destination is at every moment absent or complete, an existing one untouched; the `.part` file is gone unless the cleanup or a step before the `try` failed |
| `BackupCrypto.ReadFrame` | scripts/backup_crypto.py:58-65 | magic, nonce and tag are the right bytes of the file, and the magic is checked |
| `BackupCrypto.DecryptStream` | scripts/backup_crypto.py:65-74 | exactly the ciphertext bytes are read, never a tag byte, and decrypted as a whole |
| `BackupCrypto.WriteOpened` | scripts/backup_crypto.py:68-75 | the `.part` file holds the plaintext, accepted only with a matching tag |
| `BackupCrypto.DecryptBody` | scripts/backup_crypto.py:57-76 | each error says what the file is; every state on the way is safe |
| `BackupCrypto.DecryptFile` | scripts/backup_crypto.py:48-79 | the plaintext byte by byte; without a fault the one outcome, each error naming what the source is; it succeeds exactly on well-framed authentic files with ciphertext; plaintext appears at the destination only as the complete accepted result |
| `BackupCrypto.BackupAndRestore` | scripts/backup_crypto.py:25-79 | encrypting and decrypting returns the source for every split of the reads; an empty source does not come back |
| `Redaction.LeftmostMatch` | backend/app/core/observability.py:47-48 | substitution copies up to the leftmost match, replaces only what follows group 1, and goes on behind the match |
| `Redaction.UrlMatchIsSyntax` | backend/app/core/observability.py:42 | the matcher finds exactly the words of the pattern, in the only way there is |
| `Redaction.BearerMatchIsLongest` | backend/app/core/observability.py:43 | the matcher finds a word of the pattern whenever there is one, and the longest |
| `Redaction.UrlsAreRedacted` | backend/app/core/observability.py:47 | after the first pass every URL credential is the marker |
| `Redaction.BearersAreRedacted` | backend/app/core/observability.py:48 | after the second pass no bearer token is left |
| `Redaction.BearersKeepUrlsClean` | backend/app/core/observability.py:46-48 | the second pass never uncovers a URL credential |
| `Redaction.SanitizedIsClean` | backend/app/core/observability.py:46-48 | whatever goes in, nothing is left to redact |
| `Redaction.FixedPoints` | backend/app/core/observability.py:46-48 | a string is unchanged if and only if it is clean, so redaction is idempotent |
| `Redaction.CleanMeaning` | backend/app/core/observability.py:42-43 | clean, said over every position and every word of the two patterns |
| `Redaction.SanitizeMeaning` | backend/app/core/observability.py:46-48 | for every string: text is copied up to the leftmost URL credential, its group 1 stays, the marker follows, and so on behind it; then the same for the bearer tokens; nothing else changes |
| `Redaction.ClassesByCode` | backend/app/core/observability.py:42-43 | the character classes of the patterns on ASCII, by code |
| `LogValues.SanitizedIsScrubbed` | backend/app/core/observability.py:51-61 | at any depth only the marker is left under sensitive keys, clean text elsewhere, and no tuple |
| `LogValues.ValueFixedPoints` | backend/app/core/observability.py:51-61 | a value is unchanged if and only if it is scrubbed, so redaction is idempotent |
| `LogValues.DictsKeepTheirKeys` | backend/app/core/observability.py:57-58 | a dict keeps its printed keys, each with the redaction of the last value printed under it |
| `LogValues.DictsKeepTheirOrder` | backend/app/core/observability.py:57-58 | with distinct printed keys the items keep their order |
| `LogValues.ListsKeepTheirShape` | backend/app/core/observability.py:59-60 | each element is redacted in place under the key of the list |
| `LogValues.SanitizeValueMeaning` | backend/app/core/observability.py:51-61 | for every nested value: shape, keys and the order of keys stay, every text is redacted as above, everything under a sensitive key is the marker, and the last of several items printed alike counts |
| `LogValues.SensitiveMeaning` | backend/app/core/observability.py:41-53 | the seven parts that make a key sensitive |
| `Labels.EscapeIsOnePass` | backend/app/core/observability.py:231-232 | the three replacements are one left-to-right map over the characters |
| `Labels.EscapeMeaning` | backend/app/core/observability.py:231-232 | which characters are escaped, and how |
| `Labels.ReadEscaped` | backend/app/core/observability.py:231-232 | an escaped label is read back from any context and contains no newline |
| `Labels.ReadOnlyEscaped` | backend/app/core/observability.py:231-232 | only escaped labels are read: printer and reader are exact inverses |
| `Metrics.BucketsAreCumulative` | backend/app/core/observability.py:136-138 | bucket counts grow with the boundary and stay within the request count |
| `Metrics.CountMeaning` | backend/app/core/observability.py:133-138 | the counters are the numbers of log entries of a route, with a status, and no longer than a boundary |
| `Metrics.SumMeaning` | backend/app/core/observability.py:134 | the sum adds up the durations of a route, wherever the log is cut |
| `Metrics.StatusesAddUp` | backend/app/core/observability.py:133-135 | the counts per status of a route add up to its request count |
| `Metrics.SnapshotAddsUp` | backend/app/core/observability.py:133-138 | so do the maps of every snapshot, and its buckets are cumulative |
| `Metrics.Finishing` | backend/app/core/observability.py:129-138 | moving every counter by one observation keeps them all describing one log |
| `Metrics.MetricsRegistry.constructor` | backend/app/core/observability.py:112-123 | all counters start empty and describe the empty log |
| `Metrics.MetricsRegistry.RequestStarted` | backend/app/core/observability.py:125-127 | the gauge rises by one and nothing else changes |
| `Metrics.MetricsRegistry.RequestFinished` | backend/app/core/observability.py:129-138 | the log grows by this observation and every counter still describes it |
| `Metrics.MetricsRegistry.CountBuckets` | backend/app/core/observability.py:136-138 | exactly the buckets of the route with a boundary not below the duration rise by one |
| `Metrics.MetricsRegistry.Replay` | backend/app/core/observability.py:251-270 | any interleaving of requests leaves gauge and log as the schedule says |
| `Metrics.RunningHaveBegun` | backend/app/core/observability.py:251-270 | the requests running are those begun and not finished, and the log has one entry for each finished one, raised or returned |
| `Metrics.LoggedMeaning` | backend/app/core/observability.py:251-270 | every finish is one entry in order, with status 500 for a handler that raised and a placeholder for a missing route |
| `Metrics.GaugeCountsRunning` | backend/app/core/observability.py:125-132 | in every interleaving the gauge is the number of requests between start and finish |
| `Metrics.ClampNeverEngages` | backend/app/core/observability.py:132 | no finish meets a gauge of zero |
| `Exposition.RenderRoute` | backend/app/core/observability.py:186-202 | the ten lines of a route; no lookup fails, because the key sets of a snapshot agree |
| `MetricsText.RenderPrometheus` | backend/app/core/observability.py:160-228 | the text is the sorted lines of one snapshot; read back, every counter and every bucket under a printed boundary is the number of log entries it stands for, and every gauge has its line |
| `MetricsText.LabelMeaning` | backend/app/core/observability.py:188-193 | read as a decimal number, each label is the boundary its bucket counts up to, and the last is "+Inf" |
| `MetricsText.ReadCounts` | backend/app/core/observability.py:172-197 | the maps that are read back count the requests of the log, route by route |
| `MetricsText.CounterText` | backend/app/core/observability.py:176-179 | the line of a request counter, letter by letter |
| `MetricsText.BucketText` | backend/app/core/observability.py:188-197 | the line of a bucket, letter by letter |
| `MetricsText.OtherLines` | backend/app/core/observability.py:198-227 | every route shows its sum and its count, every alert status its events |
| `MetricsText.LineOrder` | backend/app/core/observability.py:176-187 | lines are ordered by method, path and status |
| `MetricsText.FrameOfText` | backend/app/core/observability.py:172-223 | the comment lines and their places |
| `MetricsText.FrameOfGauges` | backend/app/core/observability.py:203-223 | the metrics without labels, in order, with their values |
| `Exposition.LineKinds` | backend/app/core/observability.py:172-228 | every line is a request counter, a bucket, or readable as neither |
| `Exposition.RenderReadsBack` | backend/app/core/observability.py:172-228 | splitting the text at newlines and reading the lines recovers the counter map and all bucket counts |
| `BodyLimit.RunMeaning` | backend/app/core/middleware.py:155-168 | the application receives exactly the messages within the limit, even after swallowing the exception, and the client exactly what it sent |
| `BodyLimit.BodyBound` | backend/app/core/middleware.py:155-162 | at every prefix of every run the body bytes handed over stay within the limit |
| `BodyLimit.ServedBodyBound` | backend/app/core/middleware.py:116-182 | the same for the whole call, whatever length was declared |
| `BodyLimit.OneResponse` | backend/app/core/middleware.py:116-182 | at most one response start; a limit exception before it gives exactly one 413, after it propagates and adds nothing; a refused length gives one response and no reads |
| `BodyLimit.RefusalMeaning` | backend/app/core/middleware.py:119-150 | 400 for a length that is no number or negative, 413 for one above the limit, each the whole response, with nothing read |
| `BodyLimit.EndMeaning` | backend/app/core/middleware.py:152-182 | how every other call ends, and what the client has seen, a limit exception before a start giving one 413 |
| `BodyLimit.BareReceives` | backend/app/core/middleware.py:112-114 | called directly, the application gets the messages of the server in order |
| `BodyLimit.BareSends` | backend/app/core/middleware.py:112-114 | and the client the replies that arrive, in order |
| `BodyLimit.TransparentIffWithinLimit` | backend/app/core/middleware.py:155-168 | the middleware is invisible both ways if and only if the bytes read fit the limit |
| `BodyLimit.ServedTransparently` | backend/app/core/middleware.py:152-182 | an admitted call is the application called directly if and only if the bytes fit and no limit exception escapes before a start |
| `BodyLimit.Limiter.LimitedReceive` | backend/app/core/middleware.py:155-162 | one receive is one step of the run |
| `BodyLimit.Limiter.TrackedSend` | backend/app/core/middleware.py:164-168 | one send is one step of the run, with the flag set even if the send fails |
| `BodyLimit.Limiter.Serving` | backend/app/core/middleware.py:106-182 | the call is the specified one for every scope and every behaviour of server and application |
| `Text.JoinSplit` | backend/app/core/security.py:53 | splitting loses nothing, and only the last part may contain the separator |
| `Text.SplitJoin` | backend/app/core/security.py:102 | parts without the separator are found again when enough cuts are allowed |
| `Text.IntOfStr` | backend/app/core/security.py:48-59 | int(str(n)) is n, and refused exactly for more than 4300 digits |
| `Text.IntMeaning` | backend/app/core/security.py:59 | int() reads digits with white space around and a sign in front |
| `Text.ParseDigitsAccepts` | backend/app/core/security.py:59 | the accepted digits: groups with single underscores between them |
| `Text.UnderscoreIsSkipped` | backend/app/core/security.py:59 | an underscore between digits changes nothing |
| `Base64Url.PaddingReturns` | backend/app/core/security.py:33-39 | the encoded length is never 1 modulo 4, and decoding restores exactly the stripped padding |
| `Base64Url.NoSeparators` | backend/app/core/security.py:33-34 | encoded text is ASCII without ".", "$" and "=" |
| `Base64Url.RoundTrip` | backend/app/core/security.py:33-39 | every byte string comes back through the lenient decoder |
| `Base64Url.Injective` | backend/app/core/security.py:33-34 | different byte strings encode differently |
| `Base64Url.EncodeMeaning` | backend/app/core/security.py:33-34 | character i stands for bits 6i to 6i+5 of the bytes, and there are just enough characters |
| `Base64Url.DecodeMeaning` | backend/app/core/security.py:37-39 | a text of known characters decodes to its bits, eight at a time, unless a lone character is left |
| `Base64Url.ForeignIsSkipped` | backend/app/core/security.py:37-39 | any other character but the pad is skipped wherever it stands |
| `Passwords.IssuedHashesVerify` | backend/app/core/security.py:42-73 | a hash issued under either work factor is accepted, in either mode, for exactly the passwords with its digest, its own among them |
| `Passwords.HashMeaning` | backend/app/core/security.py:42-48 | the issued record: 120000 or 600000 iterations, in the text and in the derivation, and the random salt for a missing or empty one |
| `Passwords.LegacyHashesVerify` | backend/app/core/security.py:54-56 | three-field records verify at 120000 iterations |
| `Passwords.RecordMeaning` | backend/app/core/security.py:53-61 | which strings are records with which fields |
| `Passwords.VerdictMeaning` | backend/app/core/security.py:51-73 | for every string: accepted if and only if a record in range with the matching digest, raising if and only if a record with malformed base64 |
| `Passwords.MalformedRecordRaises` | backend/app/core/security.py:68-69 | a string on which it raises |
| `Tokens.AcceptsExactly` | backend/app/core/security.py:99-129 | the accepted strings are exactly the correctly signed ones with a current, complete payload of the expected type, which is returned |
| `Tokens.AcceptedHasTwoDots` | backend/app/core/security.py:102-109 | an accepted string has exactly two dots |
| `Tokens.EscapesExactly` | backend/app/core/security.py:99-129 | another exception than the 401 escapes if and only if the string has at least two dots and is not ASCII, or is correctly signed around a payload that is malformed base64, or fails in `json.loads` with another error, or is complete with an unordered `exp` |
| `Tokens.EscapingTokens` | backend/app/core/security.py:106-112 | an unsigned and a signed string on which that happens |
| `Tokens.CreatedTokensDecode` | backend/app/core/security.py:81-129 | a created token decodes to the overridden subject, or to the stated refusal, for every subject, time and expected type |
| `Tokens.PayloadMeaning` | backend/app/core/security.py:85-91 | the claims of a created token: type, iat, exp and jti of its own, all others from the subject |
| `Tokens.SegmentMeaning` | backend/app/core/security.py:92-96 | its segments decode to the header, the payload and the MAC of the first two |
| `Tokens.DetailMeaning` | backend/app/core/security.py:99-127 | which of the three 401 details a refused string gets |
| `Tokens.OtherSecretsRefuse` | backend/app/core/security.py:106-109 | under a secret with another MAC a created token is refused |
| `Percentile.RoundIsNearest` | scripts/run_performance_acceptance.py:241 | rounding gives the nearest integer, the even one of two, and nothing else does |
| `Percentile.RankIsNear` | scripts/run_performance_acceptance.py:241 | for a probability the clamps are idle and the rank is within 1/2 of (n-1)p |
| `Percentile.PermutationInvariant` | scripts/run_performance_acceptance.py:237-242 | the order of the samples does not matter |
| `Percentile.PercentileIsMonotone` | scripts/run_performance_acceptance.py:237-242 | a higher percentile is not lower |
| `Percentile.PercentileIsSample` | scripts/run_performance_acceptance.py:237-242 | the result is a rounded sample, at most the rounded maximum |
| `Percentile.PercentileMeaning` | scripts/run_performance_acceptance.py:237-242 | the percentile is the sample whose rank is nearest to (n-1)p, rounded to the nearest thousandth, ties to even in both; zero without samples |
| `Percentile.ReportIsOrdered` | scripts/run_performance_acceptance.py:342-347 | p50, p95, p99 and the maximum are in order for every non-empty sample |
| `Evidence.Collector.RecordHttp` | scripts/run_performance_acceptance.py:36-51 | below the cap every field still describes the longer log; at the cap nothing changes |
| `Evidence.Collector.RecordException` | scripts/run_performance_acceptance.py:53-55 | the exception tally grows by this name and nothing else |
| `Evidence.Collector.HandleCall` | scripts/run_performance_acceptance.py:135-185 | a response is recorded, or at the cap counted as a RuntimeError |
| `Evidence.Collector.HandleSocket` | scripts/run_performance_acceptance.py:205-234 | attempts and failures count the websocket workers |
| `Evidence.Collector.Replay` | scripts/run_performance_acceptance.py:285-318 | after any interleaving all fields describe the recorded samples and errors |
| `Evidence.TotalsAgree` | scripts/run_performance_acceptance.py:320-336 | status total, operation total and sample count are one number; requests are successful plus failed |
| `Evidence.EveryEventCounts` | scripts/run_performance_acceptance.py:44-47 | nothing is lost at the cap: every response and exception is counted once |
| `Evidence.RecordedMeaning` | scripts/run_performance_acceptance.py:44-47 | the first two million responses are recorded, and no others |
| `Evidence.ResponseMeaning` | scripts/run_performance_acceptance.py:48-51 | each with its operation, status and duration, in order |
| `Evidence.ErrorMeaning` | scripts/run_performance_acceptance.py:44-55 | how often each exception name is counted, a RuntimeError for every response beyond the cap |
| `Evidence.DurationsMeaning` | scripts/run_performance_acceptance.py:51 | the list of an operation holds the durations of its samples, in order |
| `Evidence.ListsUnite` | scripts/run_performance_acceptance.py:48-51 | the per-operation lists together are the latencies |
| `Evidence.FailuresAreAttempts` | scripts/run_performance_acceptance.py:325-329 | websocket failures never exceed attempts |

## Left out

- Calendar arithmetic: day, ISO week and month are parameters, because the laws hold for all of them.
- Path resolution: paths are absolute and resolved, so that a file lies below a root when its directory starts with it.
- Files changed by other processes while a script runs, and time stamps that change between two `stat` calls.
- The length limit of AES-GCM messages (section 5.2.1.1 of NIST SP 800-38D), which the cryptography library enforces, and the key derivation in `load_backup_key`.
- BackupRun.RunBackup: a failing backup subprocess leaves the tree unchanged, because what Docker and tar leave behind is not modelled; a timeout counts as a failure; the detail lines sent to the alert manager and project names with a path separator are left out as well.
- Python strings with lone surrogates: a Dafny `char` is a Unicode scalar value.
- Text.PythonInt: covers ASCII text; Python's `int` also reads other decimal digits and trims other white space.
- Float rounding, NaN and infinities: durations, ranks, roundings and JSON numbers are over the reals.
- Exposition.RenderReadsBack: reads back the counters and buckets; the duration sum is printed with nine decimals and is not recovered, and of the other lines it is stated that they are there, not that a reader finds them.
- BodyLimit.Limiter.Serving: the two sends of an error response are taken to arrive; the text of `int()` on the header is one of three outcomes.
- `JsonLogFormatter`, log handler setup, the trusted-host and correlation-id middleware, password strength rules and demo accounts: only easy members.
- The HTTP and websocket traffic of the load test, its thresholds and the digest of its report.
- The database schemas, services and validation scripts of the rest of the repository.
