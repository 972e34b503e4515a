# audistro-provider, modelled in Dafny

The provider keeps an index of media assets, announces them to a catalog again and
again, serves them or proxies them from an origin, and has one identity of its own.
This project models the parts of it that keep state over time, and proves what holds
over whole runs: any catalog answers, any clock readings, any interleaving of the jobs.

| file | what it models |
|---|---|
| `AnnounceSweep.dfy`, `Scheduler.dfy`, `AnnounceHandler.dfy`, `Cleanup.dfy` | the announce sweep; the sweep interleaved with rescans, cleanups and internal announce requests, one statement at a time; the internal announce request; the cleanup job |
| `Backoff.dfy` | the per-asset retry state, with the int64 arithmetic of the delay |
| `Announcements.dfy`, `Timestamps.dfy`, `Text.dfy` | the announcements table with its times as text, the RFC 3339 form of those times, text order and encodings |
| `AssetIndex.dfy` | the assets table, rescans one after another and overlapping |
| `RateLimiter.dfy` | the per-client token bucket |
| `CappedReader.dfy`, `UpstreamSlots.dfy` | the capped reader for proxied bodies, and the upstream semaphore with any number of requests |
| `AssetPaths.dfy` | request paths, name validators, cleaning path joins |
| `SignedText.dfy` | the texts that are signed or hashed |
| `IdentityStore.dfy` | the identity file, with faults and stops at every step, over many starts |
| `Wrappers.dfy`, `Int64.dfy` | options, results and counting; int64 wrap-around |

Mutable objects of the source are classes (`BackoffState`, `AnnouncementsRepo`,
`AssetsRepo`, `IpRateLimiter` with its `Bucket`s, `MaxBytesReadCloser`, `Semaphore`,
`Disk`); each method is proved against functions on values, and the theorems are about
those functions. Concurrency is a step relation: one step per SQL statement, lock
section or channel operation, with everything the environment decides inside the step.

Conventions: instants are nanoseconds from year 0, so that the type `Instant` is exactly
the four-digit years; Go's zero time is `GO_ZERO`. The announcements table keeps its times
as text, because the jobs compare that text; the assets table, whose times are only ever
stored, keeps the seconds that the texts spell. Floats of the rate limiter are reals.
The catalog, the random sources, the clock and all faults are parameters.

## What was found

- The retry delay is computed in int64. `Safe` is exactly the condition on Base and Max
  under which no step overflows; 62-bit values always satisfy it. On every other
  configuration one of the first 64 failures gets, for some jitter, a delay before `now`, and
  an allowed run of at most 65 attempts breaks the pacing (`UnsafeDelayIsNegative`,
  `UnsafeIsNotPaced`).
- A second sweep at the same instant is quiet for every table and every answer of the catalog
  exactly when the announce expiry covers the reannounce threshold plus the fraction of the
  current second (`QuietExactly`); neither value is validated by the configuration.
- A cleanup at tc is invisible to a sweep of instant ts exactly when every second before the
  cutoff lies before ts plus the threshold (`CleanupGoesUnnoticed`); grace and threshold that
  are not negative together and tc <= ts are enough (`PlainlyInvisible`).
- Overlapping rescans that may stop leave the result of one of them in every interleaving
  exactly when what they saw is closed under union and intersection (`OverlappingRescans`);
  rescans that all finish, exactly when it is closed under intersection (`FinishingRescans`);
  two rescans, finishing or not, when one scan contains the other (`DisagreeingRescans`).
  Otherwise they can leave the intersection, or the union when one of them stops before its
  mark.
- Announcements that one provider builds under one configuration share a signed message only
  for the same asset, second and nonce, whatever the asset id holds (`BuiltMessagesDiffer`);
  the announce request accepts any id that is not blank. The bare message format does not tell its fields apart exactly
  when one of its four text fields holds a '|' (`MessageIsShared`).
- The hashed text does not tell the listing. Another listing with distinct names has the text
  of a given one exactly when the given one has two files or more, or a single file whose name
  is a whole line, a line break and a later name (`ListingIsShared`): merging the last two files
  in name order into one name keeps order and text. Two given listings have the same text
  exactly when they stand for the same pieces in name order (`SameTextSamePieces`), and there
  are such pairs among the directories that the scan hashes (`HashedTwins`). Between listings
  whose names do not start with a whole line, in particular names without line breaks, it
  cannot happen (`PreimageIsTheFileSet`, `PlainNamesHideNothing`).
- A segment cap of 2^63 - 1, which the configuration accepts, wraps the limit around, and
  every body of unknown length then arrives empty; every smaller cap is transparent
  (`TransparentCaps`).

## Model

| member | source | states |
|---|---|---|
| Scheduler.PacingOverRuns | internal/jobs/announce_sweep.go:49-108 | in every run of the interleaved jobs, two consecutive sweep attempts on an asset, the first not OK, are at least RejectedRetry, UnauthorizedRetry, Max, or min(Max, Base·2^(k-1)) for the k-th straight failure apart |
| Scheduler.RunsAreDisciplined | internal/jobs/runner.go:126-191 | in every run the backoff map is the history of the attempts made, except the one in flight, and every attempt was allowed when it was made |
| Scheduler.RowsUnderInterference | internal/repository/announcements_repo.go:19-43 | under sweep writes, handler writes and cleanups in any order: status is ok, rejected, failed or expired, an ok row's two times parse and differ by exactly the expiry, an expired row has an expiry |
| Scheduler.CreationNeverChanges | internal/repository/announcements_repo.go:30-37 | no writer removes a row or changes its created_at |
| Scheduler.WritersAgree | internal/internalapi/announce_handler.go:94-110 | handler and sweep store the same status for the same catalog answer |
| Scheduler.HandlerWrites | internal/internalapi/announce_handler.go:84-112 | the row that the handler writes, column by column, for an answer and for a failed build |
| Scheduler.RescanIsARun | internal/jobs/rescan_job.go:38-48 | a rescan, complete or stopped after its upsert, is a run of one or two steps that change the assets as the job does and nothing else |
| Scheduler.UndisturbedSweep | internal/jobs/announce_sweep.go:41-111 | the interleaved sweep, when nothing comes between its steps, ends in the state of the sequential sweep |
| Backoff.GuardedIsPaced | internal/jobs/backoff.go:78-124 | the pacing bound for any log whose attempts CanAttempt allowed, under any clock |
| Backoff.UnsafeIsNotPaced | internal/jobs/backoff.go:126-153 | on every configuration that is not safe, some run of at most 65 attempts, each allowed when made, has the next attempt before the gap |
| Backoff.DelayBounds | internal/jobs/backoff.go:126-153 | on Safe configurations the delay lies between e = min(Max, Base·2^(n-1)) and min(Max, e + e/4) for every jitter, so no int64 step overflowed |
| Backoff.DelayExact | internal/jobs/backoff.go:126-153 | on Safe configurations the delay is exactly min(Max, e + draw), e the nominal delay and the draw from e/4 + 1 values when e/4 > 0 |
| Backoff.NominalDoubles | internal/jobs/backoff.go:131-142 | the nominal delay is min(Max, Base) at first and then min(Max, twice the one before) |
| Int64.WrapsAround | internal/jobs/backoff.go:131-150 | int64 results lie between -2^63 and 2^63 - 1 and differ by a multiple of 2^64 |
| Backoff.UnsafeDelayIsNegative | internal/jobs/backoff.go:131-150 | on every configuration that is not safe, some failure count up to 64 and some jitter give a delay before now |
| Backoff.SafeUpTo62Bits | internal/jobs/backoff.go:27-32 | Base and Max up to 2^62 ns are Safe |
| Backoff.RoundsBound | internal/jobs/backoff.go:131-142 | the loop runs at most one more time than the doublings of Base that fit under Max, however large the failure count |
| Backoff.EntryIsHistory | internal/jobs/backoff.go:100-124 | after any records: an entry exists iff the asset's last outcome was not OK, its FailCount is the longest suffix of transient or permanent outcomes, and it is due after the wait of the last one |
| Backoff.OthersDoNotMatter | internal/jobs/backoff.go:78-86 | entry and CanAttempt depend only on the asset's own events |
| Backoff.StatusClasses | internal/catalog/client.go:100-170 | which answers of the catalog lead to which retry class: status, undecodable body, no answer |
| Backoff.ClassPrecedence | internal/jobs/backoff.go:155-172 | which sentinel decides the class of an error that wraps several |
| Backoff.BackoffState.constructor | internal/jobs/backoff.go:46-67 | positive durations are kept, others become 2 s, 10 min, 24 h and 1 h; the map starts empty |
| Backoff.BackoffState.CanAttempt | internal/jobs/backoff.go:78-86 | true iff there is no entry or it is due |
| Backoff.BackoffState.CountDeferred | internal/jobs/backoff.go:88-98 | the number of entries strictly after now |
| Backoff.BackoffState.Record | internal/jobs/backoff.go:100-124 | appends the event to the history that the map is kept equal to |
| Backoff.BackoffState.NextAttempt | internal/jobs/backoff.go:126-153 | now plus the delay function, with the number of loop rounds |
| AnnounceSweep.NoStaleAssetForgotten | internal/jobs/announce_sweep.go:41-124 | after an error-free sweep each listed asset is ok with expiry not before the threshold, ok with the expiry of an announcement made now, or held back strictly after now |
| AnnounceSweep.SecondSweepAttempts | internal/jobs/announce_sweep.go:48-63 | a second sweep at the same instant attempts exactly the assets just announced whose expiry does not cover the threshold |
| AnnounceSweep.QuietExactly | internal/jobs/announce_sweep.go:48-63 | a second sweep at the same instant attempts nothing, for every table, backoff map and catalog, iff the expiry covers the threshold and the fraction of the second |
| AnnounceSweep.SecondSweepIsQuiet | internal/jobs/announce_sweep.go:48-63 | with expiry at least threshold + 1 s it attempts nothing |
| AnnounceSweep.EachAssetAlone | internal/jobs/announce_sweep.go:49-108 | each asset's outcome, row and entry are those of a sweep over that asset only |
| AnnounceSweep.Accounting | internal/jobs/announce_sweep.go:47-110 | OK + Rejected + Failed + Deferred + fresh = listed; Attempted = OK + Rejected + Failed - read errors |
| AnnounceSweep.DeferredAfterSweep | internal/jobs/announce_sweep.go:60-107 | CountDeferred at the sweep's instant is afterwards at least Deferred + Attempted - OK |
| AnnounceSweep.RunAnnounceSweep | internal/jobs/announce_sweep.go:27-111 | result, rows and backoff are those of the sweep function; no announcer or a failed listing change nothing |
| AnnounceSweep.VisitAsset | internal/jobs/announce_sweep.go:49-108 | one loop body: outcome, row and entry |
| AnnounceSweep.VisitByRow | internal/jobs/announce_sweep.go:49-64 | the outcome by the columns of the row and the backoff entry: unreadable, fresh, deferred, failed build or answered, each iff its condition holds |
| AnnounceSweep.VisitLeaves | internal/jobs/announce_sweep.go:66-107 | the row's columns and the backoff entry after each outcome, and no other asset touched |
| AnnounceSweep.TallyCounts | internal/jobs/announce_sweep.go:47-110 | each counter is the number of assets with the outcomes it stands for |
| AnnounceHandler.RequestIsARun | internal/internalapi/announce_handler.go:83-119 | an internal announce request is a run of handler writes: rows change as its loop says, sweep and backoff not at all |
| AnnounceHandler.Announce | internal/internalapi/announce_handler.go:44-124 | each of the five refusals exactly in its case and without a change; otherwise attempted = ok + rejected + failed with ok and rejected counted by answer, and the rows are the fold of the writes |
| AnnounceHandler.HandledEach | internal/internalapi/announce_handler.go:83-119 | each of distinct assets gets the row a sweep would write for its outcome, or keeps its row when the write fails |
| AnnounceHandler.SignedExpiryIsStored | internal/catalog/signing.go:28-70 | the signed expiry is the one the row stores; the base URL is the public one without its trailing slashes plus "/assets/" and the id |
| Cleanup.CleanupGoesUnnoticed | internal/jobs/cleanup_job.go:11-14 | for any tc and ts: on every table the jobs can leave, a cleanup at tc leaves the judgement of a sweep of instant ts unchanged, iff all it can mark was already due |
| Cleanup.CleanupIsInvisible | internal/jobs/announce_sweep.go:113-124 | under that condition the judgement of every row of any table is unchanged |
| Cleanup.PlainlyInvisible | internal/jobs/runner.go:182-191 | grace + threshold >= 0 and tc <= ts meet the condition |
| Cleanup.CleanupIsVisible | internal/jobs/announce_sweep.go:113-124 | outside that condition a row that an announcement wrote is fresh before and stale after the cleanup |
| Cleanup.CleanupChangesNoRun | internal/jobs/runner.go:126-191 | a cleanup put anywhere into any run of the interleaved jobs, invisible to the sweep in flight and those that start later, leaves the run possible and its attempts, backoff map, assets and place in the sweep unchanged |
| Cleanup.SweepIgnoresCleanup | internal/jobs/runner.go:182-191 | every visit of a sweep has the same outcome with and without an invisible cleanup |
| Cleanup.RunCleanupJob | internal/jobs/cleanup_job.go:11-14 | marks with the cutoff of now minus grace and counts the rows changed |
| Cleanup.CutoffValue | internal/jobs/cleanup_job.go:11-14 | the cutoff is the whole second of now less the grace seconds |
| Cleanup.CleanupOnRow | internal/repository/announcements_repo.go:99-119 | a row becomes expired, with a new update time and nothing else changed, iff its expiry is a time before the cutoff |
| Cleanup.CleanupSkipsTimeless | internal/repository/announcements_repo.go:103-110 | rows without an expiry stay |
| Cleanup.CleanupIsARun | internal/jobs/runner.go:182-191 | a cleanup is a run of one step that changes the table as the job does and nothing else |
| Announcements.MarkingIsIdempotent | internal/repository/announcements_repo.go:99-119 | the same cutoff again changes no row, a later cutoff subsumes an earlier one |
| Announcements.LapsedByTime | internal/repository/announcements_repo.go:103-110 | the text comparison `expires_at < cutoff` is the comparison of the instants |
| Announcements.ReadAfterUpsert | internal/repository/announcements_repo.go:19-97 | a row reads back with the written times cut to seconds and the creation time of its first write; other rows are untouched |
| Announcements.AnnouncementsRepo.UpsertAnnouncementStatus | internal/repository/announcements_repo.go:19-43 | the upserted table, or no change when the statement fails |
| Announcements.AnnouncementsRepo.MarkExpiredBefore | internal/repository/announcements_repo.go:99-119 | the marked table, and as result the number of rows changed |
| Timestamps.TextOrderIsTimeOrder | internal/repository/announcements_repo.go:20-28 | section 5.1 of RFC 3339: for all seconds of years 0000-9999 the texts compare as the seconds do |
| Timestamps.FormatSpells | internal/repository/announcements_repo.go:22-28 | the text of a second is its Gregorian date and time, spelled YYYY-MM-DDThh:mm:ssZ, by the closed formulas for leap years and months |
| Timestamps.EverySecondIsOnCalendar | internal/repository/announcements_repo.go:22-28 | every second of years 0000-9999 has such a date and time |
| Timestamps.Epochs | internal/catalog/signing.go:41 | second 0 of Unix time is 1970-01-01T00:00:00Z and Go's zero time 0001-01-01T00:00:00Z |
| Timestamps.UnixCounts | internal/catalog/signing.go:41 | Unix time counts whole seconds, rounding to the past; stored texts cut fractions |
| Timestamps.RoundTrip | internal/repository/announcements_repo.go:70-83 | format then parse is the identity on whole seconds, and a text that parses is the text of its instant |
| AssetIndex.TableIsHistory | internal/repository/assets_repo.go:20-105 | after any run of rescans the rows are those the history of sightings calls for, column by column: last contents, first sighting, first scan of the current absence |
| AssetIndex.LastScanIsActive | internal/jobs/rescan_job.go:38-48 | active rows are the last scan; newly missing are the assets of the scan before it that it did not see |
| AssetIndex.RescanRestores | internal/internalapi/rescan_handler.go:43-49 | from any table, one complete rescan leaves exactly its scan active and loses no row |
| AssetIndex.ActiveAfter | internal/jobs/rescan_job.go:38-48 | any number of rescans in any interleaving and with any of them stopping, from any table: an asset is active at the end iff it was and every mark saw it, or some upsert and every later mark saw it |
| AssetIndex.AgreeingRescans | internal/internalapi/rescan_handler.go:43-49 | any number of rescans that saw the same set, in any interleaving and with any of them stopping: once one has finished, active is that set |
| AssetIndex.OverlappingRescans | internal/internalapi/rescan_handler.go:43-49 | any number of rescans, with stops: in every interleaving the active set is one scan's once any rescan has finished, iff the scans are closed under union and intersection |
| AssetIndex.CompleteRescansLeave | internal/jobs/rescan_job.go:38-48 | any number of rescans that all finish, from any table: an asset is active at the end iff every mark after the last upsert saw it |
| AssetIndex.FinishingRescans | internal/internalapi/rescan_handler.go:43-49 | rescans that all finish leave one scan's result in every interleaving iff the scans are closed under intersection |
| AssetIndex.DisagreeingRescans | internal/jobs/rescan_job.go:38-44 | two rescans, complete or with stops, leave one of the two scans in every interleaving iff one contains the other |
| AssetIndex.LaterMarkDecides | internal/jobs/rescan_job.go:38-44 | two complete rescans leave the scan of the one that marks last if it upserted after the other's mark, and the intersection if not |
| AssetIndex.EmptyListMarksAll | internal/repository/assets_repo.go:69-84 | the empty-list branch equals the general one |
| AssetIndex.AssetsRepo.UpsertAssets | internal/repository/assets_repo.go:20-64 | all records or, on any failure, none |
| AssetIndex.AssetsRepo.MarkMissing | internal/repository/assets_repo.go:66-105 | marks the unseen rows that were not missing and returns their number |
| AssetIndex.AssetsRepo.CountActive | internal/repository/assets_repo.go:107-113 | the number of active rows |
| AssetIndex.RunRescan | internal/jobs/rescan_job.go:17-55 | on success the table is the rescanned one, with the counts of active and newly missing assets; after a failed step the earlier steps stay |
| RateLimiter.IpRateLimiter.Allow | internal/assets/ratelimit.go:48-71 | call k is admitted iff for every i <= k of the client's own history 10^9·(admitted from i on + 1) <= 10^9·burst + rps·(L_k - L_i), in nanoseconds; other clients' histories are unchanged |
| RateLimiter.RefillPerSecond | internal/assets/ratelimit.go:60-63 | a second refills rps tokens, and every span in proportion |
| RateLimiter.LatestIsGreatest | internal/assets/ratelimit.go:60-64 | L is the greatest reading so far |
| RateLimiter.AdmittedIsACount | internal/assets/ratelimit.go:66-70 | the calls counted are the admitted ones |
| RateLimiter.BucketStep | internal/assets/ratelimit.go:60-70 | the refilled bucket holds the least room over all windows, so it admits exactly when the window rule does |
| RateLimiter.StretchBound | internal/assets/ratelimit.go:48-71 | any stretch of calls i..j admits n calls with 10^9·n <= 10^9·burst + rps·(L_j - L_i) |
| RateLimiter.ReadingsDetermineDecisions | internal/assets/ratelimit.go:48-71 | the window rule has exactly one sequence of decisions for given readings |
| RateLimiter.IpRateLimiter.constructor | internal/assets/ratelimit.go:29-35 | rates and bursts below one become one |
| CappedReader.RunDelivers | internal/assets/handler.go:574-605 | over any run of reads, for every int64 cap: at most max bytes delivered and max + 1 consumed, too-large only for a body over the cap, and below the largest cap the end only after the whole body |
| CappedReader.WithinCapIsTransparent | internal/assets/handler.go:574-605 | for a body within the cap every reply is the upstream's own; with the cap 2^63 - 1 every reply is the end at once |
| CappedReader.TransparentCaps | internal/assets/handler.go:398-404 | all bodies within a cap pass unchanged iff the cap is below 2^63 - 1 |
| CappedReader.OverflowIsFinal | internal/assets/handler.go:575-598 | once the byte after the cap has been read, every later read returns the too-large error |
| CappedReader.MaxBytesReadCloser.Read | internal/assets/handler.go:574-605 | the bytes handed over are the next bytes of the body, a prefix of it within the cap |
| CappedReader.SegmentsStayWithinCap | internal/assets/handler.go:388-412 | with the Content-Length policy, no segment response passes on more than the cap |
| CappedReader.SizePolicyMeans | internal/assets/handler.go:394-412 | which responses are refused, capped and passed, for every extension and cap |
| UpstreamSlots.SlotsOverRuns | internal/assets/handler.go:221-237 | in every run 0 <= gauge <= holders = channel occupancy <= size |
| UpstreamSlots.EverySlotReturns | internal/proxyguard/limit.go:33-41 | each admitted request that is through gave back exactly one slot, never to an empty channel; when all are through, all slots are free |
| UpstreamSlots.RefusedOnlyWhenFull | internal/proxyguard/limit.go:16-31 | a request is refused iff it was cancelled or all slots are held |
| UpstreamSlots.NewSemaphore | internal/proxyguard/limit.go:9-14 | no semaphore for a non-positive size |
| UpstreamSlots.Acquire | internal/proxyguard/limit.go:16-31 | takes a slot iff there is room and the request is not cancelled |
| UpstreamSlots.Release | internal/proxyguard/limit.go:33-41 | gives one slot back, or does nothing on an empty channel |
| AssetPaths.ParseIsInverseOfPrint | internal/assets/handler.go:58-72 | a path is accepted as (id, file) iff it is "/assets/" + id + "/" + file with no slash in id |
| AssetPaths.TargetIsInsideRoot | internal/assets/handler.go:270-283 | for every assets root and plain names, the joins are root/id and root/id/file, and the within-root check succeeds |
| AssetPaths.CleanLeadsToTheSame | internal/assets/handler.go:158-159 | a cleaned path leads to the same directory from every directory, and has no empty, "." or inner ".." components |
| AssetPaths.AbsLeadsToTheSame | internal/assets/handler.go:270-278 | the absolute path leads where the path leads from the working directory |
| AssetPaths.RequestsAreServablePaths | internal/assets/handler.go:139-171 | a request is let through as id, file and extension with target root/id/file iff the path is "/assets/" + id + "/" + file, the names have the allowed characters and lengths without double dots, and the extension is a served one of the file |
| AssetPaths.ExtensionMeans | internal/assets/validate.go:37-55 | the extension answered is the lower-cased end of the name, one of .m3u8, .ts, .m4s and .mp4, the last only for init.mp4 and init-*.mp4 |
| AssetPaths.ValidatorsMean | internal/assets/validate.go:10-35 | the three validators accept exactly those names |
| AssetPaths.RefusalStatus | internal/assets/handler.go:140-162 | refused as not found iff the path is not of the form or a valid id has no file; otherwise as a bad request |
| AssetPaths.ValidNamesArePlain | internal/assets/validate.go:10-55 | validated names have no slash and are neither "." nor ".." |
| SignedText.MessageDeterminesAnnouncement | internal/catalog/signing.go:72-74 | equal messages mean equal announcements when ids and transport have no separator |
| SignedText.MessageFields | internal/catalog/signing.go:72-74 | the order and place of the six fields in the message, each text field in as many pieces as its separators make |
| SignedText.MessageIsShared | internal/catalog/signing.go:72-74 | another announcement has the same message iff the provider id, asset id, transport or base URL holds a separator |
| SignedText.BuiltMessagesDiffer | internal/catalog/signing.go:28-53 | announcements of one provider and configuration share a message only for the same asset, second and nonce, whatever the texts hold |
| SignedText.BuiltFields | internal/catalog/signing.go:28-70 | a build succeeds iff base URL and asset id are not blank and there is a nonce; every argument stands in its own field, the expiry in Unix seconds, and the message is made of them in order |
| SignedText.SpacesAre | internal/catalog/signing.go:29-34 | what counts as white space, up to Latin-1 |
| SignedText.TrimSpaceMeans | internal/internalapi/announce_handler.go:69-70 | what is left after trimming: the text between the white space at its ends |
| SignedText.TextDeterminesRequest | internal/originauth/hmac.go:74-94 | equal signed texts mean equal method, path (empty as "/"), timestamp, nonce and provider, and query when included |
| SignedText.CanonicalLines | internal/originauth/hmac.go:84-94 | the order and place of the lines of the signed text |
| SignedText.SignableRequests | internal/originauth/hmac.go:74-83 | signed are exactly GET and HEAD with a nonce of 16 bytes |
| SignedText.PreimageIsTheFileSet | internal/scanner/scanner.go:202-212 | two listings hash the same text iff they list the same files, in any order, when no name starts with a whole line |
| SignedText.LinesByFile | internal/scanner/scanner.go:208-210 | the hashed text has the lines of each file in order, each ended by a line break: one per file when names have no line breaks |
| SignedText.LineFields | internal/scanner/scanner.go:208-210 | a line is the name, in as many pieces as its separators make, size and modification time |
| Text.LessAtFirstDifference | internal/scanner/scanner.go:203-205 | names compare by the first character that differs, a prefix being smaller |
| Text.IntTextSpells | internal/scanner/scanner.go:209 | numbers are spelled in decimal with a minus sign and without leading zeros |
| Text.HexSpells | internal/catalog/signing.go:38 | two lower-case hexadecimal digits per byte, the high one first |
| SignedText.ListingIsShared | internal/scanner/scanner.go:202-212 | another listing with distinct names has the same text iff there are two files or more, or one whose name is a whole line and a later name |
| SignedText.SameTextSamePieces | internal/scanner/scanner.go:202-212 | for any two listings: same text iff, in name order and with every hidden line read as a file, they are the same files |
| SignedText.LongerListing | internal/scanner/scanner.go:208-210 | of sequences in any order, before the sort: a longer one has the same text iff some name starts with a whole line |
| SignedText.LinesInjective | internal/scanner/scanner.go:208-210 | the text determines the files in order when no name starts with a whole line |
| SignedText.HashedTwins | internal/scanner/scanner.go:110-178 | two directories that the scan hashes, with master playlist and segments, one of two segments and one of a single segment, have the same text |
| SignedText.PlainNamesHideNothing | internal/scanner/scanner.go:208-210 | names without line breaks meet the condition |
| SignedText.ContentText | internal/scanner/scanner.go:202-212 | writes the lines of the files sorted by name |
| IdentityStore.HeldForever | internal/identity/identity.go:39-58 | once the file is complete, even if the start that wrote it stopped before returning, every later start returns its identity, not created, or cannot read the file, and the file stays |
| IdentityStore.RenameDecides | internal/identity/filestore.go:104-145 | on a disk without the file a start leaves its identity complete iff its Save got past the rename, and no file otherwise |
| IdentityStore.OneIdentityForever | internal/identity/identity.go:39-58 | over any sequence of starts with faults and stops, once a start has returned an identity every later one that can read the file returns the same one, not created |
| IdentityStore.FirstStartCreates | internal/identity/identity.go:39-58 | an undisturbed first start creates, and the next readable one loads what it created |
| IdentityStore.Save | internal/identity/filestore.go:81-145 | wherever it fails or stops, the target holds the old content or the complete new one, the new one iff the rename was reached; temporary files are left only by a stop |
| IdentityStore.LoadAfterSave | internal/identity/filestore.go:28-102 | loading what was saved gives the identity with its creation time in seconds |
| IdentityStore.SavedText | internal/identity/filestore.go:93-105 | the file character by character: labels, order and values |
| IdentityStore.UuidSpells | internal/identity/filestore.go:93-98 | the UUID's digits with dashes after 8, 12, 16 and 20 of them |
| IdentityStore.LoadedFileIsSaved | internal/identity/filestore.go:28-79 | a file that loads is the file Save writes for what was loaded, up to the reduction of the private key |
| IdentityStore.OnlyMissingIsNotFound | internal/identity/filestore.go:35-41 | not found means that there is no file |
| IdentityStore.LoadedKeysMatch | internal/identity/filestore.go:61-71 | an identity that loads has a non-zero key and the public key derived from it |
| IdentityStore.HeldStays | internal/identity/identity.go:39-58 | a complete file is never replaced and its reader gets its identity |
| IdentityStore.LoadOrCreate | internal/identity/identity.go:39-58 | outcome and target of one start |
| IdentityStore.ExistingFileStays | internal/identity/identity.go:39-58 | an existing file is never replaced: it is loaded, or the start refuses |
| IdentityStore.MissingFileIsCreated | internal/identity/identity.go:39-58 | what a start without a file returns, by what its Save met |

## Left out

- SQLite, migrations and connection handling: a statement is an atomic change of a map that may fail. NULL columns, which only a migrated table could have, do not occur.
- The catalog client, TLS, JSON of requests and the reverse proxy: replaced by arbitrary outcomes.
- SHA-256, HMAC, Schnorr and curve arithmetic: only their inputs are modelled, or they are function parameters.
- Metrics, logging, health checks, OpenAPI, configuration loading, CORS, address allowlist, content headers, storage mode: shallow branching.
- Serving local files, symbolic links and directory walking: foreign calls and independent branches.
- Tickers and the Status snapshot of the runner: the runs cover every order and timing of the jobs.
- Timestamps.RoundTrip: a text counts as parsing only in the UTC form without fractions that the program writes; Go's parser also takes offsets and fractions, which have other spellings of one instant.
- Cleanup.CleanupIsInvisible: for the same reason rows with such texts, which no statement of the program writes, count as unreadable.
- Cleanup.CleanupGoesUnnoticed: asks that the announcement which runs out just before the cutoff has a four-digit year after year 1.
- Timestamps.Parse: accepts only UTC texts without fractions, the form the program writes; Go's parser also takes offsets and fractions.
- Timestamps.Format: years from 10000 on and before year 0, which Go prints in other widths, are outside the type; so the sweep's lemmas ask for a clock and expiry with four-digit years after year 1.
- Durations built from configuration seconds are unbounded here; only the backoff delay and the segment limit model int64.
- RateLimiter.Refill: exact reals instead of float64 rounding, and no saturation of time.Sub beyond 292 years.
- SignedText.ContentText: sorts a sequence of values by an insertion sort; the source sorts its slice in place with the library sort.
- SignedText.ListingIsShared: the other listing has distinct names; it need not have the playlist and extensions of a directory that the scan hashes.
- SignedText.IsSpace: white space beyond Latin-1 is not trimmed.
- SignedText.Hashed: names are compared in lower case for ASCII letters only.
- IdentityStore.Decode: reads the layout Save writes; other JSON layouts, upper-case hexadecimal and other UUID spellings that Go accepts are not modelled.
- Two processes creating an identity at the same time: starts follow one another.
