# AllRouter: verified models of its stateful core

AllRouter is a gateway that routes requests for AI models to channels. This project models the parts of it whose
correctness spans many steps, and proves what those parts are for. `dafny verify dfyconfig.toml` checks everything.

| part | modules | main results |
|---|---|---|
| Upstream model detection and application | `Text`, `NameLists`, `UpstreamModels`, `UpstreamChannel`, `IntSets`, `BatchScan` | exactly when pending models are conserved over every run and when detection converges; complete batch scan |
| Provider pricing sync | `PricingSync` | the plan refines a pure sync; idempotence, coverage, uniqueness, independence of history |
| In-memory rate limiter | `RateLimiter` | agrees with a naive sliding window, and bounds every window, exactly under stated conditions |
| Verification codes | `VerificationStore` | the map and the Redis back end refine one reference; what a successful consume means; harmless rollback |
| Multi-key channels | `MultiKey` | the size and index invariant over every run; exactly when a deletion keeps rows and keys together |
| Provider mail settings | `MailOption` | a stored password never meets a connection it was not submitted with |
| Ogg/Opus scanner | `OggScanner` | the scanning loop on an encoded stream recognises exactly its pages |
| Request bodies on memory or disk | `DiskCache`, `BodyStorage`, `BodyCache` | both storages answer alike exactly outside one case; bodies can be read again; counters balance; when the disk limit breaks |
| Quota and payment rounding | `Rounding`, `QuotaMath`, `Decimals`, `PaymentMatch` | agreement of the two roundings, uniqueness of the matching amount, when a quoted Stripe total is accepted, exact cost of rounding twice |
| Model metadata enrichment | `ChannelKey`, `Enrichment` | the batched index equals the naive computation |

Code that updates state is a class or a method with loops, proved against a specification function. The laws are
lemmas about those functions. `Sequences` and `Options` hold shared definitions.

## What the code does not meet

Each of these is a law one would expect that fails on some inputs. The lemma named proves exactly when it holds.

- Rate limiting is a sliding window only if every limit is at least one and, where a sweeper runs, no window is longer
  than the idle expiration plus one second: `RateLimiter.RefinesExactly`. The bound on admissions per window holds for a
  key under almost the same condition on its own limit: `RateLimiter.BoundedExactly`.
- The two verification back ends agree only for a positive time to live, because Redis reads zero as "no expiry":
  `VerificationStore.BackEndsAgreeExactly`. This program sets it to ten minutes and never changes it.
- Deleting keys keeps the surviving rows only if the remaining text is read as the remaining keys:
  `MultiKey.DeletionFaithful`. Lines may turn into an array (`MultiKey.LinesReadAsArrays`), and deleting when all keys
  are auto-disabled re-enables them all (`MultiKey.AllAutoDisabledRevive`).
- The recorded number of keys is wrong exactly when the text reads as an array without elements:
  `MultiKey.StepValidExactly`.
- A key disabled by hand may show the time and reason of an older failure: `MultiKey.StaleRecord`.
- A report that equals the status of the channel is dropped, so a channel can be enabled without an enabled key:
  `MultiKey.ReportedChannel`, `MultiKey.EnabledWithoutKeys`.
- A model name with a comma does not survive storage: `UpstreamChannel.ModelsOfJoin`. Conservation and convergence of
  pending models fail with it: `UpstreamChannel.RunConservesExactly`, `UpstreamChannel.CleanExactly`,
  `UpstreamChannel.RunConvergesExactly`.
- A dismissed name that reads as a regular expression may come back: `UpstreamModels.DismissedStaysHidden`,
  `UpstreamChannel.DismissedForever`.
- The two body storages differ on an empty read at the end: `BodyStorage.RunsAgree`.
- Disk usage can exceed its limit when a body streamed to disk is longer than announced, as a decompressed one is:
  `BodyCache.LimitKeptExactly`.
- The two quota roundings record clamps differently in the half unit inside each end:
  `QuotaMath.ClampRecordsDiffer`.
- Rounding money twice differs from rounding once just below a tie: `PaymentMatch.DoubleRoundingDiffers`.
- A Stripe total is rejected when the quantity sold is not the one quoted for: `PaymentMatch.QuoteMatchesExactly`. With
  amounts displayed in tokens, the quote is made for the amount folded into units and the sale is not.
- Resubmitting the redacted mail settings of a legacy record can be refused: `MailOption.ResubmitExactly`.

## Model

| member | source | states |
|---|---|---|
| `Text.FieldsOfJoin` | model/channel.go:289-294 | joining a list and reading it back gives the list if and only if no field holds the separator and the first and last are not empty |
| `Text.FieldsClean` | model/channel.go:289-294 | fields read from text never hold the separator, and except for the single empty field they can be stored again |
| `Text.TrimExactly` | controller/channel_upstream_update.go:98-103 | trimming takes off exactly what is to be cut at both ends, however much it is |
| `NameLists.MergeModelNames` | controller/channel_upstream_update.go:105-119 | the seen-set loop computes the normal form of the two lists concatenated |
| `NameLists.NormalizeNormal` | controller/channel_upstream_update.go:98-103 | normalising leaves every list of distinct trimmed names unchanged |
| `NameLists.UniqMembers` | controller/channel_upstream_update.go:98-103 | deduplication keeps exactly the members, each once |
| `NameLists.MergeMembers` | controller/channel_upstream_update.go:105-119 | a merge has exactly the normalised names of both lists |
| `NameLists.MergeDisjoint` | controller/channel_upstream_update.go:105-119 | merging disjoint normal lists is concatenation, so the count of added models is exact |
| `UpstreamModels.CollectPending` | controller/channel_upstream_update.go:177-236 | the loops collect in order the lists of which `UpstreamModels.PendingMembers` says exactly what they hold |
| `UpstreamModels.PendingMembers` | controller/channel_upstream_update.go:177-236 | a name is found for addition exactly if it is upstream, not listed, no target of a redirect and covered by no ignore entry, read as a regular expression after `regex:`; and for removal exactly if it is listed, not upstream and no source of a redirect |
| `UpstreamModels.ApplySelectedMembers` | controller/channel_upstream_update.go:143-148 | applying selections gives a normal list with exactly the added names and the original names not removed |
| `UpstreamModels.Converges` | controller/channel_upstream_update.go:143-236 | applying all that was detected leaves nothing to detect, for every mapping, ignore list and matcher |
| `UpstreamModels.DismissedStaysHidden` | controller/channel_upstream_update.go:177-236 | a name on the ignore list stays out of every detection, whatever is local, upstream, ignored and mapped, if and only if it does not read as a regular expression or matches itself |
| `UpstreamChannel.ChannelRecord.CheckAndPersist` | controller/channel_upstream_update.go:361-408 | throttling, fetch failure, automatic sync and pending lists follow the detection step; the added count is the number of names found |
| `UpstreamChannel.ChannelRecord.ApplyUpdates` | controller/channel_upstream_update.go:948-996 | the new record is the application step; what it reports is what was pending and selected |
| `UpstreamChannel.PendingNormalized` | controller/channel_upstream_update.go:948-1000 | normalising the pending lists before use does not change any selection or remainder |
| `UpstreamChannel.ModelsOfJoin` | model/channel.go:289-294 | the stored comma-separated text gives the names back if and only if none holds a comma |
| `UpstreamChannel.ModelsArePieces` | model/channel.go:289-294 | for any names, the stored text reads back as their comma-separated pieces, in order and without repetitions |
| `UpstreamChannel.DetectOrderly` | controller/channel_upstream_update.go:361-408 | a detection that reached its upstream leaves normal, disjoint pending lists from any state; automatic sync keeps every model, and appends exactly the names found if and only if none holds a comma |
| `UpstreamChannel.ApplyOrderly` | controller/channel_upstream_update.go:948-996 | an application with any selections keeps the pending lists normal and disjoint and only listed models pending removal |
| `UpstreamChannel.ApplyModels` | controller/channel_upstream_update.go:948-996 | the stored model list is the one computed if and only if no added name holds a comma, and names without one are never lost |
| `UpstreamChannel.ApplyLists` | controller/channel_upstream_update.go:948-996 | exact membership of the ignore list and both pending lists after any application |
| `UpstreamChannel.AddWins` | controller/channel_upstream_update.go:948-996 | from any state, a name selected and pending for addition is added even if also selected for removal; that removal stays pending |
| `UpstreamChannel.RunOrderly` | controller/channel_upstream_update.go:361-996 | every run of detections and applications from nothing pending keeps that shape, whatever the upstream names |
| `UpstreamChannel.RunConservesExactly` | controller/channel_upstream_update.go:361-996 | at every application of every run, each pending addition ends in exactly one of models, ignore list, still pending, each pending removal is carried out or still pending, and no other name moves, if and only if no added name holds a comma and no other pending addition is already listed or ignored |
| `UpstreamChannel.CleanExactly` | controller/channel_upstream_update.go:361-996 | that condition holds at every application of every run that fetches only certain names, if and only if each of those names holds no comma and, read as an ignore entry, covers itself; one detection and one application of any other name break it |
| `UpstreamChannel.RunConvergesExactly` | controller/channel_upstream_update.go:361-996 | detecting, applying all that is pending and detecting again finds nothing, if and only if no name found held a comma and adding by hand took no regular expression off the ignore list that alone hid another upstream name |
| `UpstreamChannel.DismissedForever` | controller/channel_upstream_update.go:177-996 | once dismissed, a name stays ignored and never becomes pending over every run, if and only if it does not read as a regular expression or matches itself |
| `UpstreamChannel.DetectsWhenDue` | controller/channel_upstream_update.go:361-408 | a detection changes nothing unless forced, never done before or past the interval; a due one that fails only notes the time |
| `UpstreamChannel.SyncsWhenAllowed` | controller/channel_upstream_update.go:361-408 | a due detection adds models by itself exactly when the caller and the channel allow it, and otherwise leaves all that was found pending and the list untouched |
| `UpstreamChannel.RedirectsSpared` | controller/channel_upstream_update.go:177-996 | after a detection and any applications no source of a redirect is pending removal, no target is pending addition, and every listed source is still listed |
| `BatchScan.ApplyAll` | controller/channel_upstream_update.go:1002-1077 | the keyset scan visits every enabled channel exactly once in id order, for any batch size, leaves disabled and unchecked ones untouched, and leaves nothing pending on any checked one |
| `BatchScan.DetectAll` | controller/channel_upstream_update.go:688-756 | the same for the periodic detection: a checked channel that is due and reaches its upstream gets exactly the differences found, in orderly lists and with no addition left pending where it syncs by itself; one that is not due is unchanged |
| `BatchScan.ProcessedSettles` | controller/channel_upstream_update.go:1015-1077 | a processed channel has nothing pending, and has gained and lost exactly what was pending if and only if no addition holds a comma |
| `PricingSync.PlanSync` | controller/provider_model_sync.go:163-231 | the single-pass plan with growing sets equals the declarative plan |
| `PricingSync.ProviderPricing.SyncNow` | controller/provider_model_sync.go:237-306 | applying the plan row by row and inserting turns the table into the pure sync of it, and reports the names updated |
| `PricingSync.AppliedIsSync` | controller/provider_model_sync.go:261-306 | updates by id and inserts with fresh ids amount to settling each row and appending the missing ones |
| `PricingSync.UpdateFlagged` | controller/provider_model_sync.go:261-306 | updating the selected rows one id at a time touches exactly those rows |
| `PricingSync.MissingNames` | controller/provider_model_sync.go:206-229 | the created names are the visible ones used neither as base nor as public name, each once |
| `PricingSync.SyncedRow` | controller/provider_model_sync.go:187-204 | a row follows the main models by its trimmed base name: one that sync had disabled is enabled again if a model has that name, and an enabled one is disabled by sync if none has; any other row is unchanged |
| `PricingSync.SyncedName` | controller/provider_model_sync.go:206-229 | a model is created exactly if no row has its name as base or public name, and skipped exactly if a row has it as public name only |
| `PricingSync.CreatedRow` | controller/provider_model_sync.go:206-229 | a created row has the name of a visible model in both places, is enabled and not disabled by sync, and has the ratio 1.5 |
| `PricingSync.SyncCovers` | controller/provider_model_sync.go:163-231 | after a sync every visible model has a row or is reported skipped, never both |
| `PricingSync.SettledRows` | controller/provider_model_sync.go:187-204 | after a sync no row calls for another update and none is both enabled and disabled by sync |
| `PricingSync.SyncIdempotent` | controller/provider_model_sync.go:163-306 | a second sync with the same models plans nothing, skips the same names and changes nothing |
| `PricingSync.SyncKeepsUnique` | controller/provider_model_sync.go:206-229 | ids, public names and base names stay unique, so no insert violates the unique index |
| `PricingSync.HistoryIndependent` | controller/provider_model_sync.go:153-204 | after any history of syncs an original row depends only on itself and the last model set |
| `PricingSync.CreatedFollowLast` | controller/provider_model_sync.go:153-231 | after any history a row created during it is enabled exactly when the last model set has its model, and else disabled by sync |
| `RateLimiter.InMemoryRateLimiter.Init` | common/rate-limit.go:14-26 | only the first call counts; it empties the store and starts a sweeper of so many whole seconds, for a positive expiration only |
| `RateLimiter.InMemoryRateLimiter.Request` | common/rate-limit.go:45-70 | the queue step: admission looks only at the oldest kept time, and a queue within a positive limit stays within it |
| `RateLimiter.InMemoryRateLimiter.ClearExpiredItems` | common/rate-limit.go:28-42 | a sweep drops exactly the queues whose newest time is past the expiration |
| `RateLimiter.YoungAreASuffix` | common/rate-limit.go:45-70 | in an ordered log, "at least m young entries" is the test on the m-th entry from the end |
| `RateLimiter.RequestKeepsRelated` | common/rate-limit.go:45-70 | a request is answered as by the full-log limiter and the bounded queue keeps tracking the log |
| `RateLimiter.SweepKeepsRelated` | common/rate-limit.go:28-42 | a sweep forgets nothing that could still matter while windows fit the expiration |
| `RateLimiter.RefinesFrom` | common/rate-limit.go:28-70 | from related states every run of requests and sweeps is answered alike |
| `RateLimiter.OverrunDisagrees` | common/rate-limit.go:28-70 | where a sweeper runs, a burst, a sweep and one more request are answered differently for every key whose window is too long |
| `RateLimiter.NaiveSpaced` | common/rate-limit.go:45-70 | the naive reference, which remembers every admission, spaces the admissions of a key over every run |
| `RateLimiter.RefinesExactly` | common/rate-limit.go:14-70 | the limiter agrees with the naive one in every run if and only if limits are positive and, where a sweeper runs, windows fit its expiration plus one second |
| `RateLimiter.KeySpaced` | common/rate-limit.go:28-70 | the bounded queue of a key keeps its admissions spaced over every run, whatever the limits of other keys |
| `RateLimiter.AdmissionsSpaced` | common/rate-limit.go:45-70 | over every run the admissions of a key that are `max` apart in order are `duration` apart in time, given a positive limit that no sweep cuts short |
| `RateLimiter.AdmissionsShown` | common/rate-limit.go:45-70 | the admission times used in these laws are those the answers of the limiter show |
| `RateLimiter.OverrunAdmitted` | common/rate-limit.go:28-70 | a full burst and, after a sweep, one more request are all admitted |
| `RateLimiter.BoundedExactly` | common/rate-limit.go:14-70 | no window of length `duration` in any run holds more than `max` admissions of a key, if and only if its own limit is positive and fits any sweeper, or zero with an empty window |
| `RateLimiter.RefusedExactly` | common/rate-limit.go:28-70 | after every run a request is refused exactly when `max` admissions of its key lie in the last `duration` seconds, given a positive limit that no sweep cuts short |
| `VerificationStore.VerificationCodes.Register` | common/verification.go:75-97 | registering replaces the code of its key in the active back end only, and sweeps a large map |
| `VerificationStore.VerificationCodes.Consume` | common/verification.go:114-142 | the answer and the new state of the active back end, and neither changes when Redis is unavailable |
| `VerificationStore.VerificationCodes.RemoveExpiredPairs` | common/verification.go:145-153 | exactly the expired pairs are deleted |
| `VerificationStore.MapRefines` | common/verification.go:75-153 | with sweeps and early deletion the map answers every run as the reference that never forgets |
| `VerificationStore.LargeMapsAreFresh` | common/verification.go:75-153 | over every run a map of more than ten codes holds none that had expired at the last registration |
| `VerificationStore.RedisRefines` | common/verification.go:41-48 | the compare-and-delete script on expiring keys answers every run as the same reference |
| `VerificationStore.BackEndsAgreeExactly` | common/verification.go:68-142 | both back ends answer all runs alike if and only if the time to live is positive |
| `VerificationStore.HeldIffPending` | common/verification.go:75-142 | the reference holds a key exactly when its latest registration is unconsumed, with that code and time |
| `VerificationStore.ConsumeMeans` | common/verification.go:99-142 | a consume succeeds if and only if the latest registration has its code, is unconsumed and is younger than the time to live, on both back ends |
| `VerificationStore.RollbackInvisible` | common/verification.go:106-112 | invalidating a code that is not the latest fails and leaves every later answer unchanged, on both back ends |
| `MultiKey.WithoutKey` | controller/channel.go:1571-1649 | the copying loop of one deletion computes the specified copy |
| `MultiKey.WithoutAutoDisabled` | controller/channel.go:1651-1718 | the copying loop of a bulk deletion computes the specified copy and the number removed |
| `MultiKey.CopyFollows` | controller/channel.go:1571-1718 | in every copy the keys and their statuses, times and reasons move together to the new positions |
| `MultiKey.MultiKeyChannel.Save` | model/channel.go:536-583 | saving recounts the keys as array elements or lines, counts an empty array by lines, drops statuses past the end and ignores zero fields |
| `MultiKey.MultiKeyChannel.DisableEvery` | controller/channel.go:1524-1569 | the count is the number of enabled keys, refused when zero |
| `MultiKey.MultiKeyChannel.Delete` | controller/channel.go:1571-1649 | accepted exactly for an index in range with a key left over; the new state is the step |
| `MultiKey.MultiKeyChannel.DeleteDisabled` | controller/channel.go:1651-1718 | the count is the number of auto-disabled keys, refused when zero |
| `MultiKey.MultiKeyChannel.ReportKey` | model/channel.go:651-789 | the new state is the step, of which `MultiKey.ReportedChannel`, `MultiKey.ReportedElsewhere` and `MultiKey.SwitchingActions` say what it does to the channel and every row |
| `MultiKey.ReportedChannel` | model/channel.go:651-789 | a report about a known key changes nothing if it gives the status the channel has; otherwise the channel is auto-disabled if no row is then enabled, else enabled if the report enabled one, else unchanged |
| `MultiKey.ReportedElsewhere` | model/channel.go:651-789 | a report that names an unknown key is dropped while there are keys; without keys or a name it sets the channel status and nothing else |
| `MultiKey.ReportsKeepInStep` | model/channel.go:651-789 | from an enabled channel with an enabled row, over every run of reports about keys, the channel is enabled exactly while some row is and else auto-disabled |
| `MultiKey.EnabledWithoutKeys` | model/channel.go:757-763 | once all keys of an enabled channel are disabled by hand, reports that one works change nothing, and the channel stays enabled without an enabled key |
| `MultiKey.StepKeepsCounted` | model/channel.go:536-583 | every action keeps the recorded size equal to what saving counts and every status index below it |
| `MultiKey.RunKeepsCounted` | controller/channel.go:1415-1718 | every run of actions keeps that invariant |
| `MultiKey.StepValidExactly` | controller/channel.go:1415-1718 | after any run an action leaves the size equal to the number of keys if and only if the text it leaves does not read as an array without elements; only a deletion can break it |
| `MultiKey.StorableReadsBack` | model/channel.go:175-197 | keys written one per line read back as themselves if and only if they can be stored: some, and either the text reads as an array of just these, or as none, with first and last not empty and none spanning lines |
| `MultiKey.StorableAsLines` | model/channel.go:175-197 | for a reader under which arrays are longer than their elements, as with JSON, the text must not read as an array at all |
| `MultiKey.PaddedKeys` | model/channel.go:175-197 | white space around an array of keys does not matter, and text that does not read as an array is read line by line |
| `MultiKey.DeletionFaithful` | controller/channel.go:1571-1718 | a deletion shows exactly the surviving rows, renumbered, if and only if the remaining keys can be stored |
| `MultiKey.LinesReadAsArrays` | controller/channel.go:1571-1649 | deleting the first of two lines leaves `[1,2]` to be read as two other keys, and `[]` as none while one is counted |
| `MultiKey.AllAutoDisabledRevive` | controller/channel.go:1651-1718 | deleting when every key is auto-disabled reports success, keeps every key and shows each enabled |
| `MultiKey.DeletingActions` | controller/channel.go:1571-1718 | the same if-and-only-if for the two accepted deleting actions, which leave the channel status alone |
| `MultiKey.SwitchingActions` | controller/channel.go:1318-1569 | every other action keeps all keys in place and determines every row: which it changes, to what status, time and reason, and which it leaves, as a dropped report leaves all |
| `MultiKey.AcceptedExactly` | controller/channel.go:1415-1718 | which actions are accepted, from the rows shown: an index in range, for a deletion another row besides, and for the bulk actions a row of status one or three to act on |
| `MultiKey.StaleRecord` | controller/channel.go:1415-1498 | a key reported to fail, enabled again and disabled by hand shows the failure if and only if it was enabled by a report and the failure was not dropped; after enabling by hand it shows none |
| `MailOption.ProviderMail.Update` | controller/provider_option.go:307-363 | accepts, refuses and stores as the merge rule says, which the lemmas below spell out; a refusal changes nothing |
| `MailOption.CanonicalizeIdempotent` | controller/provider_option.go:180-263 | canonical settings written out read back as themselves, and so does their connection |
| `MailOption.LegacyReads` | controller/provider_option.go:180-231 | settings given only under legacy names are read as the same settings, either legacy flag meaning `ssl` |
| `MailOption.NewNamesWin` | controller/provider_option.go:180-231 | a new field that is given wins over whatever its legacy twin says, and host and user are trimmed |
| `MailOption.DefaultsStored` | controller/provider_option.go:180-363 | where a submission says nothing an accepted update stores port 587, `starttls`, mail off, no forced login and no timeout |
| `MailOption.ExplicitPassword` | controller/provider_option.go:307-363 | a submission with a password is accepted whatever is stored, and stores it; the new field wins over the legacy one |
| `MailOption.LegacyNotReused` | controller/provider_option.go:307-363 | a stored password is refused to a submission without one when the stored host, port, user or encryption is only under its legacy name |
| `MailOption.ReuseExactly` | controller/provider_option.go:307-363 | after any history a submission without a password is accepted exactly when a password is stored for the same host, port, user, encryption and login mode, or none is stored and mail is off |
| `MailOption.ResubmitExactly` | controller/provider_option.go:267-363 | for any stored record, legacy ones too, resubmitting the redacted view is accepted if and only if its password may be reused, and then stores the canonical form |
| `MailOption.HistorySound` | controller/provider_option.go:307-363 | in every history the stored record is canonical, enabled mail has a password, and the password was last submitted with exactly the stored connection |
| `MailOption.ResubmitUnchanged` | controller/provider_option.go:267-363 | after any history, resubmitting the redacted view is accepted and changes nothing |
| `MailOption.RedactedHidesPassword` | controller/provider_option.go:267-302 | after any history the view shows no password under either name, and exactly whether there is one |
| `MailOption.RedactedWithoutSettings` | controller/provider_option.go:267-302 | the view of a stored null shows the defaults, and of anything unreadable nothing |
| `OggScanner.LittleEndianRoundTrip` | common/audio.go:196-254 | little-endian decoding undoes encoding for every size |
| `OggScanner.GranuleRoundTrip` | common/audio.go:196-254 | every signed 64-bit granule position survives encoding |
| `OggScanner.Scan` | common/audio.go:196-254 | the seeking loop computes the positional scan: its highest value and the positions where it recognised a page |
| `OggScanner.ReadPage` | common/audio.go:196-254 | one turn of the loop: header, step back to the next byte, segment table and seek |
| `OggScanner.HighestAtIsHighest` | common/audio.go:196-254 | scanning by absolute position finds what scanning the remaining bytes does |
| `OggScanner.VisitsAtIsVisits` | common/audio.go:196-254 | and recognises pages at the same positions |
| `OggScanner.RoundIsVisit` | common/audio.go:196-254 | one round of the seeking loop reads the same page as the bytes left over start with |
| `OggScanner.OpusGranules` | common/audio.go:196-254 | the highest granule position of the bytes, and the pages it was read from |
| `OggScanner.EncodedPage` | common/audio.go:196-254 | an encoded page of section 6 of RFC 3533 is read back with its granule position and size, whatever follows |
| `OggScanner.ScanJunk` | common/audio.go:196-254 | bytes without a capture pattern are stepped over without effect |
| `OggScanner.ScanItems` | common/audio.go:196-254 | over any list of pages and silent gaps, with a last page possibly broken off, the scan visits exactly the page starts |
| `OggScanner.HighestGranuleIsMaximum` | common/audio.go:196-254 | the running highest is the maximum of zero and all granule positions |
| `OggScanner.ScanOfStream` | common/audio.go:196-254 | the scan of an encoded stream recognises exactly its pages and returns that maximum |
| `OggScanner.CutPage` | common/audio.go:196-254 | what is left of a page cut short anywhere starts a page exactly if its 27-byte header is whole, and has its granule position |
| `OggScanner.CutStream` | common/audio.go:196-254 | a stream that breaks off anywhere within a page is scanned as its whole pages, and that page too exactly if its header is whole |
| `OggScanner.OpusDuration` | common/audio.go:196-254 | on an encoded stream the loop recognises exactly the page starts, and the duration is that maximum at 48 kHz |
| `DiskCache.Counters.Decrement` | common/disk_cache_config.go:109-135 | closing uncounts one storage and its bytes, with the disk side clamped at zero |
| `BodyStorage.MemoryReadsGather` | common/body_storage.go:47-63 | reads of any sizes hand out the content from the cursor on, in order, nothing lost or repeated |
| `BodyStorage.DiskReadsGather` | common/body_storage.go:169-185 | the same for a file |
| `BodyStorage.Rereadable` | common/body_storage.go:47-238 | after any use that does not close it, a seek from the start, the cursor or the end and reads give the content from there on, in either storage; a seek to before the start fails and moves nothing |
| `BodyStorage.EndReported` | common/body_storage.go:47-185 | a read of at least one byte reports the end exactly when nothing is left |
| `BodyStorage.ClosedRefuses` | common/body_storage.go:47-238 | once closed, every operation of every sequence but closing again is refused |
| `BodyStorage.MemoryStorage.CloseBody` | common/body_storage.go:65-72 | closing uncounts the body once, however often it is called |
| `BodyStorage.DiskStorage.CloseBody` | common/body_storage.go:187-196 | closing uncounts the file once, however often it is called |
| `BodyStorage.StepsAgree` | common/body_storage.go:47-238 | one operation keeps both storages in step and is answered alike if and only if it is not an empty read at the end; a whole read leaves the disk cursor alone |
| `BodyStorage.RunsAgree` | common/body_storage.go:47-238 | a sequence of operations is answered alike if and only if it has no such read |
| `BodyStorage.NonEmptyReadsAgree` | common/body_storage.go:47-238 | no sequence without empty reads contains such a read |
| `BodyCache.CreateBodyStorage` | common/body_storage.go:241-259 | the reply and the counters are those of the function of which `BodyCache.BytesGoToDisk` says where the bytes go |
| `BodyCache.CreateBodyStorageFromReader` | common/body_storage.go:262-303 | the same for a request body, with `BodyCache.ReaderGoesToDisk`; a failure leaves the counters alone |
| `BodyCache.BytesGoToDisk` | common/body_storage.go:241-259 | bytes are stored in full, on disk exactly when the cache is on, files work, and they reach the threshold and fit the limit |
| `BodyCache.ReaderGoesToDisk` | common/body_storage.go:262-303 | a request body goes to disk exactly when the cache is on, files work, and its declared or actual length reaches the threshold and fits; it is refused exactly when too long, unreadable, or announced for a file that fails |
| `BodyCache.RunRouted` | common/body_storage.go:241-303 | over every run each storage is on disk or in memory by that rule, at the counters before the event that made it |
| `BodyCache.RunHits` | common/body_storage.go:241-303 | over every run the hit counters are the numbers of request bodies accepted onto disk and into memory |
| `BodyCache.AcceptsExactly` | common/body_storage.go:262-303 | with working files exactly the bodies within the limit are accepted, stored in full with the cursor at the start |
| `BodyCache.ClampNeverFires` | common/disk_cache_config.go:115-123 | in a balanced state closing never needs the clamp |
| `BodyCache.StepBalanced` | common/body_storage.go:241-303 | every creation and close keeps the counters equal to the open storages |
| `BodyCache.RunBalanced` | common/body_storage.go:241-303 | over every run the counters are the number and total size of the open storages |
| `BodyCache.LimitKeptExactly` | common/body_storage.go:262-303 | an event keeps disk usage within the limit in every reachable state of every configuration if and only if it is not an accepted body longer than the length it declared |
| `BodyCache.LimitHolds` | common/disk_cache_config.go:170-177 | without such bodies disk usage stays within a fixed limit over every run |
| `BodyCache.UnderstatedLengthBreaksLimit` | common/body_storage.go:262-303 | with threshold and limit of one megabyte, a body declared as a megabyte and a byte longer exceeds the limit by that byte |
| `Rounding.RoundIsNearest` | common/quota_math.go:65-92 | rounding gives the one nearest integer, ties away from zero |
| `Rounding.RoundMonotone` | common/quota_math.go:65-92 | rounding never reverses an order |
| `QuotaMath.RoundingsAgree` | common/quota_math.go:65-92 | float and decimal rounding give the same saturated quota on every number |
| `QuotaMath.ClampRecordsDiffer` | common/quota_math.go:65-92 | exactly one of them records a clamp if and only if the number lies in the half unit inside an end |
| `QuotaMath.AllInRange` | common/quota_math.go:40-92 | every conversion, of NaN and infinities too, lands between -2147483648 and 2147483647 |
| `QuotaMath.ClampsRecorded` | common/quota_math.go:40-92 | what lies outside the range is cut at its end and recorded with cause and value, NaN is recorded as zero, and nothing else is recorded |
| `QuotaMath.AllMonotone` | common/quota_math.go:40-92 | every conversion is monotone apart from NaN |
| `QuotaMath.CloseInRange` | common/quota_math.go:40-92 | inside the range rounding is nearest and truncation goes toward zero by less than one |
| `PaymentMatch.MatchMeans` | controller/payment_reconcile.go:52-63 | a match means the amount in hundredths equals the order in hundredths, where IDR, JPY, KRW and VND amounts are whole units |
| `PaymentMatch.AtMostOneAmount` | controller/payment_reconcile.go:52-63 | no order is matched by two amounts in one currency |
| `PaymentMatch.SomeAmount` | controller/payment_reconcile.go:52-63 | some amount matches unless the currency has no minor unit and the order is not whole |
| `Decimals.DecimalReadBack` | controller/payment_reconcile.go:65-72 | the decimal text of every integer is read as that integer |
| `Decimals.DecimalMeans` | controller/payment_reconcile.go:65-72 | a sign, digits, a point, digits and an exponent are read as the number they spell |
| `PaymentMatch.StripeReads` | controller/payment_reconcile.go:65-81 | any text that reads as an integer, padded, signed, with point or exponent, is checked as that number of minor units |
| `PaymentMatch.StripeAgrees` | controller/payment_reconcile.go:52-81 | on the decimal text of every integer the Stripe check equals the minor-unit check |
| `PaymentMatch.QuoteMatchesExactly` | controller/topup_stripe.go:788-823 | the total Stripe reports for a quote passes the check against the recorded amount if and only if the quantity sold is the one quoted for |
| `PaymentMatch.QuoteCovers` | controller/topup_stripe.go:805-818 | a quote is never under the amount due, rounded to minor units of its currency, and at most the quantity less one minor unit over it |
| `PaymentMatch.CloseToOrder` | controller/payment_reconcile.go:12-19 | the accepted amount is within half a cent and half a millionth of the order |
| `PaymentMatch.DoubleRoundingDiffers` | controller/payment_reconcile.go:12-19 | rounding to six and then two places differs from rounding once exactly on the amounts at most half a millionth under half a hundredth |
| `ChannelKey.KeyInjective` | controller/model_meta.go:422-430 | name, underscore and type identify a channel, even when names hold underscores |
| `Enrichment.BuildIndex` | controller/model_meta.go:331-373 | the nested loops give every rule model its index entry, and none to the unmatched |
| `Enrichment.IndexIsNaive` | controller/model_meta.go:331-373 | an index entry is the filtered names and the unions a direct computation gives |
| `Enrichment.MatchesMeans` | controller/model_meta.go:331-345 | rule one matches the names that start with the pattern, two those that hold it, three those that end with it, and no other rule any |
| `Enrichment.MatchedMembers` | controller/model_meta.go:331-373 | the matched names are exactly those of pricings that fit the rule |
| `Enrichment.QueryBound` | model/model_meta.go:115-139 | one query for many names groups distinct rows as a query per name would, listing every channel bound to a name once |
| `Enrichment.StoreChannel` | controller/model_meta.go:422-430 | storing a channel under its key never displaces another |
| `Enrichment.EnrichRule` | controller/model_meta.go:388-442 | a rule model receives the unions, matched names and their count, keeping what it had where a union is empty |
| `Enrichment.UnionsMean` | controller/model_meta.go:388-442 | the endpoints, groups and quota types of an enriched rule model are exactly those of the pricings that fit its rule |
| `Enrichment.ChannelsMean` | controller/model_meta.go:388-442 | its channels are, once each, those bound to a priced name that fits, or what it had if there are none |
| `Enrichment.ExactMeans` | controller/model_meta.go:277-321 | a model with an exact name gets the groups and quota types cached for it, its cached endpoints if it had none, and once each the channels bound to it |
| `Enrichment.EnrichModels` | controller/model_meta.go:277-443 | every model of a batch ends with what the naive computation for it alone gives, and the matched names of a rule model are those of the pricings that fit its rule |

## Left out

- HTTP handlers, authorisation, notifications and the fetching of upstream model lists: inputs arrive as parameters.
- Database and cache failures after a decision is made; each operation is one step and concurrency is not modelled.
- Clocks are parameters and never run backwards; identifiers and storage keys are taken as given, so key hashing is not modelled.
- Regular-expression matching is a parameter, and the normalisation of a channel's model mapping is taken as done.
- RateLimiter.RefinesExactly: gives each key one fixed limit, and so does BoundedExactly.
- RateLimiter.InMemoryRateLimiter.Request: asks for a limit that is not negative, for which the source panics on a new key.
- VerificationStore: a Redis key set with a positive expiry is readable strictly before it runs out; whole seconds only.
- VerificationStore.RollbackInvisible: covers Redis for a positive time to live only, and so does ConsumeMeans.
- MultiKey: the reading of JSON arrays is a parameter; the cached copy of a channel, which takes in reports that the stored one drops; the paging, filtering and masking of the status view, and the time and reason kept for the channel as a whole.
- MultiKey.MultiKeyChannel.Save: relies on the struct update of gorm skipping zero-valued fields.
- MultiKey.ReportsKeepInStep: covers reports that name a key, with the statuses enabled and auto-disabled that failures and recoveries send.
- MailOption: JSON text is classed as unreadable, null, misspelt, mistyped or proper; redacting a stored record with misspelt fields is not modelled, and no update stores one.
- PricingSync: timestamps, provider scoping, transactions and the summary record.
- PricingSync.ProviderPricing.SyncNow: asks ids to be unique and below the next id, as a primary key guarantees.
- OggScanner: other audio formats, and readers that return fewer bytes than asked.
- BodyStorage: aliasing of the byte slice a memory storage hands out, and seek modes beyond the standard three.
- BodyCache: clean-up of old files and resetting of statistics; the configuration is fixed during a run.
- QuotaMath: floats are exact reals with NaN and infinities; rounding of the float representation itself is not modelled.
- PaymentMatch: currency codes arrive in upper case, amounts are exact reals; the recomputation of the Stripe amount from old orders and the epay comparison.
- PaymentMatch.QuoteMatchesExactly: asks for a quantity of at least one, by which the source divides.
- Enrichment: models with an exact name are enriched one by one rather than grouped by name, which gives the same result; rows of a query come in table order.
- Enrichment.EnrichModels: asks the list to hold no model twice, as rows of one query do.
