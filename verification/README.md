# A model of the gateway's in-memory protocols and its accounting

These modules describe, and prove properties of, the parts of an LLM API gateway whose correctness
rests on state kept in memory or on non-obvious arithmetic: the sliding-window rate limiter, the
channel-test worker pool, pricing synchronisation, multi-key channels, upstream model
reconciliation, admission limits, request body storage, quota conversion and the Opus duration scan.
`dafny verify dfyconfig.toml` checks everything.

## How the modules fit together

Code that updates objects is a class here, with the same fields and one method per source method;
each method is proved equal to a function on values, and the laws are lemmas about that function. The
`...Exactly` lemmas say what such a function is worth in plain terms: stored maps, numbers, sums.

| part | modules |
|---|---|
| rate limiter | `RateLimitQueue` (linked queue), `RateLimitState` (one step on values), `RateLimiter` (heap classes), `RateLimitRuns` (whole runs against a reference) |
| worker pool | `WorkerPool` (one step per synchronisation or local action of a goroutine) |
| pricing | `Pricing` (normaliser), `PricingDiff` (the report), `PricingDiffScan` (the loops), `PricingMeaning` and `ReportMeaning` (what data and report say, entry by entry), `ModelsDev` (provider selection) |
| multi-key channels | `KeyList` (key text), `MultiKeyRow` (actions on a stored row), `MultiKeyActions` (each action key by key), `MultiKeyRuns` (coupling over runs), `MultiKeyChannel` (the class) |
| upstream models | `ModelNames`, `UpstreamUpdates` (detect and apply), `UpstreamTask` (channel record and paged scan), `UpstreamMeaning` (both, name by name) |
| admission | `ObservationLimiter` |
| request bodies | `BodyCursor` (answers call by call), `BodyAccounts` (creation, counters, runs), `BodyCounters` (interleaved counter updates), `ByteReader` and `BodyStorage` (classes) |
| charges | `Quota` |
| audio | `OpusScan` (the scan), `OpusPages` (streams of pages) |
| shared | `Text`, `Bytes`, `Options` |

## What turned out not to hold as promised

Each of these has a lemma with a concrete failing input, or the exact condition, or both.

- The limiter equals a plain count of recent accepted requests if and only if clean-up is off or no
  duration is longer than the key expiration (`RefinesReferenceExactly`, `ForgetsTooEarly`).
- `delete_disabled_keys` on a channel whose keys are all auto-disabled empties the key text, which the
  row update then leaves out as a zero value, while it does write the cleared statuses. The keys are
  back and enabled under a channel that is disabled (`EmptiedListComesBack`, `CouplingCanBreak`).
- `delete_key` on a JSON array of keys one of which holds a line break can leave one key that reads as
  two, the second without a status and so enabled, under a channel that stays disabled
  (`LineBreakBreaksCoupling`). These two are all the ways in which "channel enabled iff some key is
  enabled" is lost: the rewritten text is empty, or reads as more keys than were kept while none was
  enabled (`StepCouplesExactly`).
- A rewritten key list reads back unchanged if and only if the text decodes as a JSON array of just
  these keys or, not decoding, no key holds a line break and neither end is blank
  (`ReadsBackExactly`). A deletion is a stable compaction under the same condition on the keys it
  leaves (`CompactsExactly`, `DeletionCanMakeJson`).
- The append branch parses the stored text differently from how keys are read: a text that opens like
  a JSON array but does not decode is dropped (`ParsesAgreeExactly`, `UndecodableTextIsDropped`). A
  Vertex key over several lines falls apart into its lines (`PrettyPrintedKeyFallsApart`).
- An empty JSON array of keys has size one in the stored row (`CountIsKeys`).
- The pricing report is faithful if and only if channel names are distinct and no upstream expression
  reads "same" (`FaithfulExactly`).
- A model name with a comma, or one that starts with `regex:` and as a rule does not match itself and
  nothing else, breaks detect and apply; all others are safe (`ConsistentExactly`).
- The provider selection is cheapest up to one tolerance only because providers are scanned in order;
  out of order the tolerance adds up (`OutOfOrderDrifts`).
- A body limit of the largest 64-bit integer wraps around and stores every body as empty
  (`LimitKeptExactly`). The shipped callers, whose limits are whole mebibytes, cannot reach it.
- A body that understates its length can overfill the disk cache, and so can a declared length that
  overflows when added to the usage (`MaximumKeptExactly`, `UnderstatedLengthOverfills`).
- Memory and disk storage differ on an empty read at the end, on reads one system call cannot serve and
  on seeks beyond what the file system allows (`SameAnswersExactly`).
- The truncating strict conversion rejects values just above the maximum whose truncation would fit
  (`StrictTruncationExactly`).

## Assumptions

- The clock does not go backwards; instants are parameters, read under the mutex except that of an
  eviction, which may be older. A duration is fixed per key.
- A mutex-protected method is one step. `run` in the worker pool returns, with any counters that one
  health check can produce.
- float64 and decimals are reals, with NaN and the infinities where the code looks for them; rounding
  error is not modelled.
- Decoding a JSON array of keys and matching a regular expression are parameters of which nothing is
  assumed. A key read from a JSON array is the raw text of its element, quotes included.
- A zero-valued key text is not written by `Channel.Update`, as gorm's `Updates` leaves out zero fields
  of a struct (model/channel.go:558-605). A nil map and an empty map are the same. Indices in the
  per-key maps are not negative.
- `sort.Strings` is modelled by insertion into a sorted list.
- A cache file behaves as an open file on Linux: an empty read succeeds anywhere, a read at the end
  reports the end, one read hands over at most some positive number of bytes, and the file system has
  a largest offset, beyond which no write succeeds. Its I/O can fail while the storage is being made,
  not later. Nobody writes to a payload once it is stored.
- The reader handed to the Opus scan fills a buffer in one call while bytes are left.

## Model

| member | source | states |
|---|---|---|
| RateLimitRuns.RefinesReferenceExactly | common/rate-limit.go:98-211 | Over every run of Request, Reserve, Complete and idle evictions under a non-decreasing clock, evictions that act on an older tick included, every answer equals that of a reference that keeps all accepted timestamps and counts those younger than the duration, if and only if clean-up is off or no duration exceeds the key expiration |
| RateLimitRuns.RunAgrees | common/rate-limit.go:107-211 | One direction step by step: answers and history follow the reference and the limiter's state stays in agreement with it |
| RateLimitRuns.ForgetsTooEarly | common/constants.go:210-211 | The other direction: with a duration longer than the expiration, a three-step run is answered "allowed" where the reference refuses |
| RateLimitRuns.ReservationsStayWithinMaximum | common/rate-limit.go:178-211 | For a key driven by reservations, in every reachable state and across evictions, the successes still in the window plus the reservations in flight never exceed the maximum, and the reservation counter is the number of uncompleted reservations, with no entry when there is none |
| RateLimitRuns.TokensStayDone | common/rate-limit.go:194-211 | A second completion of a reservation changes nothing, whatever happened since the first |
| RateLimitState.RequestEffect | common/rate-limit.go:152-166 | Admitted exactly when fewer unexpired requests than the maximum are on record; then this one is added, and no other key and no reservation changes |
| RateLimitState.ReserveEffect | common/rate-limit.go:178-190 | Admitted exactly when unexpired requests plus reservations are below the maximum; then one reservation more and no stamp |
| RateLimitState.CompleteEffect | common/rate-limit.go:194-211 | One reservation less, one stamp more on success, also when the bucket had been evicted; the counter entry disappears at zero |
| RateLimitState.EvictsExactlyTheIdle | common/rate-limit.go:107-131 | Stopping at the first active entry from the back evicts exactly the idle keys |
| RateLimitState.EvictionExactly | common/rate-limit.go:107-131 | An eviction leaves, unchanged and in order, exactly the buckets last used less than the expiration ago, and all of them when it is not positive |
| RateLimitState.AdmittedByCount | common/rate-limit.go:152-190 | A request is admitted exactly when fewer of its key's seconds than the maximum lie less than the duration back, a reservation when that count plus the open reservations is below it |
| RateLimitState.UnixIsSeconds | common/rate-limit.go:157-163 | Stamps are whole seconds of instants counted in nanoseconds |
| RateLimitState.TouchStamps | common/rate-limit.go:135-149 | Finding or creating the entry and moving it to the front leaves every key's requests alone |
| RateLimitQueue.RemoveExpiredKeepsExactlyUnexpired | common/rate-limit.go:36-53 | With ordered stamps, the whole-queue shortcut and the head loop together keep exactly the unexpired requests |
| RateLimitQueue.Queue.Append | common/rate-limit.go:23-33 | The linked queue holds the old stamps and the new one, in a fresh node at the tail |
| RateLimitQueue.Queue.RemoveExpired | common/rate-limit.go:36-53 | The linked queue becomes the specified suffix of its own nodes |
| RateLimitQueue.Queue.Clear | common/rate-limit.go:56-60 | The queue is empty and its invariant holds |
| RateLimiter.Limiter.TouchEntry | common/rate-limit.go:135-149 | Store, list and buckets change as the value model says, the touched entry is in front, and the heap invariant is kept |
| RateLimiter.Limiter.Request | common/rate-limit.go:152-166 | Answer and whole new state are the value model's |
| RateLimiter.Limiter.Reserve | common/rate-limit.go:178-190 | Answer and whole new state are the value model's; an admitted call returns a fresh open reservation outside the limiter's own objects, ready to be completed |
| RateLimiter.Limiter.Release | common/rate-limit.go:194-211 | The critical section of a first completion is the value model's step |
| RateLimiter.Reservation.Complete | common/rate-limit.go:194-211 | The first call completes the reservation, any later one leaves the limiter as it is |
| RateLimiter.Limiter.DeleteExpiredEntries | common/rate-limit.go:107-131 | The clean-up loop over the list removes from store and list what the value model evicts |
| WorkerPool.TestChannelForHealthCheck | controller/channel-test.go:967-1011 | The counters of one check: Tested = Succeeded + Failed, Disabled <= Failed, Enabled + Disabled <= Tested, and when each of them is one |
| WorkerPool.StepKeepsInv | controller/channel-test.go:1016-1104 | Every step of every goroutine, in any interleaving, keeps the invariant on jobs, results, progress and shutdown order |
| WorkerPool.Safety | controller/channel-test.go:1016-1104 | In every reachable state no channel is with two workers, at most the normalised number of runs is active, the summary is the sum over exactly the received results with its counter relations, and progress has been 0, 1, 2, ... |
| WorkerPool.SummaryCountsReceived | controller/channel-test.go:1016-1104 | In every reachable state each of the five counters is the plain sum over exactly the received results; a skipped channel's is all zero and, before any cancellation, any other's what its check returned |
| WorkerPool.WorkersStarted | setting/operation_setting/monitor_setting.go:65-73 | There are as many workers as configured, but at least one, at most 32 and at most one a channel |
| WorkerPool.CompleteRun | controller/channel-test.go:1016-1104 | A run that returned uncancelled gives the sequential sum over the channels not manually disabled and reported 0, 1, ..., total |
| WorkerPool.CompleteRunCounts | controller/channel-test.go:1016-1104 | At the end of an uncancelled run each counter is the plain sum over the channels that are there and not of status 2, and progress was 0, 1, ..., total |
| WorkerPool.NoDeadlock | controller/channel-test.go:1034-1103 | From every state of the invariant, cancelled or not, some goroutine can move until the call has returned |
| WorkerPool.StepDecreases | controller/channel-test.go:1034-1103 | A measure falls with every step |
| WorkerPool.EveryRunEnds | controller/channel-test.go:1034-1103 | No run takes more than 6 steps per channel plus one per worker plus 4, and one that cannot go on has returned |
| Pricing.EffectivePricingSyncData | controller/ratio_sync.go:145-199 | The in-place passes over the maps, in whatever iteration order, compute one function of the data |
| Pricing.RowOfEffective | controller/ratio_sync.go:145-209 | Each model is normalised on its own values alone |
| Pricing.EveryModelHasOneForm | controller/ratio_sync.go:145-199 | Every surviving model is tiered with a trimmed non-blank expression and no numeric field, or priced with nothing else numeric, or rated with a model ratio, no price and no expression |
| Pricing.EffectiveRowForms | controller/ratio_sync.go:145-199 | The same for one model's values, and the three forms exclude each other |
| Pricing.DroppedExactlyWhenUnpriced | controller/ratio_sync.go:145-199 | A model disappears exactly when it is tiered with a blank expression, or not tiered with neither price nor ratio |
| PricingMeaning.EffectiveEntries | controller/ratio_sync.go:107-199 | Entry by entry: a model has effective entries exactly when it can be billed; the mode is one of two literals, the expression the trimmed one, and each price kept is the finite non-negative number that was there, whatever its type |
| Pricing.EffectiveIsIdempotent | controller/ratio_sync.go:145-199 | Normalising twice is normalising once |
| PricingDiff.FaithfulExactly | controller/ratio_sync.go:634-816 | For given channel names and allowed expressions, the report shows (model, field) exactly for the real differences on all data, if and only if the names are distinct and no allowed expression reads "same" |
| PricingDiff.DistinctAndUnmarkedIsFaithful | controller/ratio_sync.go:634-816 | With distinct names and no such expression, (model, field) is reported iff some considered channel has an effective value that differs beyond the tolerance or that local lacks |
| ReportMeaning.ReportExactly | controller/ratio_sync.go:634-816 | With distinct names and no expression that reads "same": a field is reported exactly when some channel that takes part has an effective entry that local lacks or that is 1e-9 or more away; every item shows local's entry, exactly the channels that take part and differ anywhere, each with its own entry where it differs, the marker where it agrees or both have none, nothing where only local has one, and trusted unless both ratios are the placeholder |
| PricingDiff.PruneKeepsIncluded | controller/ratio_sync.go:776-813 | Between marking and pruning, no item that really differs is dropped and no other gets through |
| PricingDiff.ReportedModelDiffers | controller/ratio_sync.go:787-813 | With distinct names and no expression that reads "same", a model is in the report iff it really differs in some field, and then with such a field |
| PricingDiff.SelfComparisonIsEmpty | controller/ratio_sync.go:634-816 | Data compared with itself reports nothing, under any channel names |
| PricingDiff.RepeatedNameHidesADifference | controller/ratio_sync.go:776-813 | For every list of names with a repetition, data on which a difference is lost |
| PricingDiff.MarkerExpressionIsLost | controller/ratio_sync.go:751-813 | For every expression that reads "same", data on which a difference is lost |
| PricingDiffScan.BuildDifferences | controller/ratio_sync.go:634-816 | All passes together compute the specified report, whatever the map order |
| PricingDiffScan.TrustColumn | controller/ratio_sync.go:666-699 | A value is distrusted exactly when it is the placeholder pair of ratios |
| PricingDiffScan.TrustTable | controller/ratio_sync.go:666-699 | The table indexed by channel name holds, for a repeated name, the last channel's verdict |
| PricingDiffScan.CompareField | controller/ratio_sync.go:715-774 | The channel loop with its two flags includes a field exactly when some considered channel has a value there that local lacks or that differs beyond the tolerance, and builds the item as specified |
| PricingDiffScan.CompareModel | controller/ratio_sync.go:701-774 | The field loop, numeric fields skipped when an expression takes priority |
| PricingDiffScan.CollectCandidates | controller/ratio_sync.go:650-774 | The model loop over every name that occurs anywhere |
| PricingDiffScan.MarkChannels | controller/ratio_sync.go:776-785 | The three nested loops mark exactly the channels with a visible value in some item |
| PricingDiffScan.PruneChannels | controller/ratio_sync.go:788-795 | Deleting from both maps of an item while ranging over its channels keeps exactly the marked channels |
| PricingDiffScan.PruneFields | controller/ratio_sync.go:787-808 | The loop over a model's fields drops exactly the items with nothing but the marker left |
| PricingDiffScan.PruneModels | controller/ratio_sync.go:787-813 | The same for the whole report, models left empty included |
| ModelsDev.SelectsCheapestNonZero | controller/ratio_sync.go:1001-1064 | In provider order, despite a comparison that is not transitive, the selection is one of the candidates, is non-zero when some candidate is, is below every non-zero cost plus the tolerance and strictly below every earlier one |
| ModelsDev.OutOfOrderDrifts | controller/ratio_sync.go:1001-1013 | Out of order the same comparison ends more than the tolerance above the cheapest |
| ModelsDev.SortedKeys | controller/ratio_sync.go:1035-1050 | Collecting a map's keys in any order and sorting them lists exactly the keys in order |
| ModelsDev.ListingIsUnique | controller/ratio_sync.go:1035-1050 | There is one such list, so map order cannot be seen |
| ModelsDev.SelectCandidates | controller/ratio_sync.go:1035-1064 | The two nested loops select for every model from its candidates in provider order |
| ModelsDev.SelectionIsDeterminedAndCheap | controller/ratio_sync.go:965-1064 | Two enumerations of one catalogue select the same; a model is selected iff some provider has usable costs for it, and non-zero below every non-zero cost plus the tolerance |
| ModelsDev.CandidateExactly | controller/ratio_sync.go:965-999 | What becomes a candidate and with which input, output and cache costs |
| ModelsDev.SelectionIsListed | controller/ratio_sync.go:1035-1064 | What is selected is what some provider lists, costs and all |
| ModelsDev.FreeSelectsFirst | controller/ratio_sync.go:1001-1013 | When every candidate is free, the first provider's is kept |
| KeyList.ReadsBackExactly | model/channel.go:182-204 | Joining keys by line breaks and reading them back is the identity exactly when the text decodes as a JSON array of just these keys or, not decoding, no key holds a line break and neither end of the list is blank |
| KeyList.PlainReadsBack | model/channel.go:182-204 | Visible one-line keys that do not begin like JSON always read back, and their count is the stored size |
| KeyList.CountIsKeys | model/channel.go:558-596 | The size computed on update equals the number of keys read, except exactly for an empty JSON array |
| KeyList.AppendKeys | controller/channel.go:1204-1281 | Both parses, the Vertex forms and the loop with its seen map yield the stored keys followed by the new ones; refused exactly when a Vertex array does not decode, passed over when nothing is stored |
| KeyList.ParsesAgreeExactly | controller/channel.go:1213-1225 | The append branch parses the stored text as it is read exactly when a text that opens like a JSON array also decodes |
| KeyList.UndecodableTextIsDropped | controller/channel.go:1213-1225 | For every stored text that opens like a JSON array and does not decode, an append leaves only the new key |
| KeyList.PrettyPrintedKeyFallsApart | controller/channel.go:1241-1244 | A Vertex key over two lines is appended as one key and read back as two |
| KeyList.AppendedKeysAreNew | controller/channel.go:1204-1281 | What is appended is trimmed, non-blank, free of repetition and of existing keys, and no supplied key is lost |
| KeyList.AppendedExactly | controller/channel.go:1250-1275 | A key is appended exactly when some submitted key reads like it once trimmed and no stored one does |
| KeyList.NewKeysInOrder | controller/channel.go:1250-1275 | The appended keys come in the order in which they were first submitted |
| KeyList.SubmittedExactly | controller/channel.go:1227-1253 | What a request submits: its visible lines, trimmed; for Vertex the decoded array, or the text itself |
| KeyList.LinesInOrder | controller/channel.go:1246-1253 | These lines come in their order, each once for each time it stands in the text |
| KeyList.AppendKeepsIndicesExactly | controller/channel.go:1204-1281 | From any stored text and any submitted keys: after the new text is read back the keys read before have kept their indices, and the new ones follow, exactly when nothing was written, or the text decodes as an array of just these keys, or it does not decode, the stored text was parsed as it is read, no key holds a line break and neither end is blank |
| MultiKeyRow.Compaction | controller/channel.go:2048-2095 | On non-empty one-line keys that do not open like a JSON array: survivors keep their order, each one's effective status, disabled time and reason move with it to its new index, and no index is left outside the new size |
| MultiKeyRow.CompactsExactly | controller/channel.go:2048-2166 | On any stored row, a deletion that leaves something is such a compaction if and only if the rewritten text decodes as an array of just the remaining keys or, not decoding, no remaining key holds a line break and neither end of the remaining list is blank |
| MultiKeyRow.DeletionCanMakeJson | controller/channel.go:2030-2111 | Deleting the middle one of three lines can leave a text that decodes to other keys |
| MultiKeyRow.DeleteKeyCompactsExactly | controller/channel.go:2030-2111 | On any row with a consistent size, deleting one of several keys is a stable compaction without exactly that key if and only if the rewritten text reads as the others |
| MultiKeyRow.DeleteDisabledCompactsExactly | controller/channel.go:2113-2183 | On any row, exactly the auto-disabled keys are dropped, as a stable compaction if and only if the rewritten text reads as the others; with none of them the row is unchanged |
| MultiKeyRow.DeleteDisabledCompacts | controller/channel.go:2113-2183 | On non-empty one-line keys that do not open like a JSON array the condition always holds, provided some key is not auto-disabled |
| MultiKeyRow.NoAutoDisabledLeft | controller/channel.go:2113-2183 | On any row, no key is auto-disabled afterwards |
| MultiKeyRow.EmptiedListComesBack | controller/channel.go:2113-2183 | On any row whose keys are all auto-disabled, all keys are back and enabled under a channel that is not |
| MultiKeyActions.EnableKeyExactly | controller/channel.go:1912-1953 | The key has no status, time or reason any more, every other keeps its own, and the channel goes on when it was off for lack of keys and one is enabled |
| MultiKeyActions.DisableKeyExactly | controller/channel.go:1866-1910 | The key has status 2, times and reasons stay, every other key keeps its own, and the channel goes off when it was on and none is enabled |
| MultiKeyActions.EnableAllExactly | controller/channel.go:1955-1978 | No status, time or reason is left |
| MultiKeyActions.DisableAllExactly | controller/channel.go:1980-2028 | Refused without an enabled key; otherwise exactly those that were enabled have status 2 |
| MultiKeyActions.CompactedMeans | controller/channel.go:2048-2166 | What a stable compaction says about the stored maps, survivor by survivor |
| MultiKeyActions.DeletionTurnsOff | controller/channel.go:2097-2103 | A deletion whose text is written turns the channel off, with reason and time, exactly when it was on and no key is enabled any more |
| MultiKeyActions.DeletionsExactly | controller/channel.go:2113-2150 | The keys a deletion of disabled keys drops are exactly those with status 3; without one the row stays |
| MultiKeyActions.RefusedExactly | controller/channel.go:1866-2075 | An index out of range, and the deletion of the last key, change nothing |
| MultiKeyActions.CoupledMeans | controller/channel.go:91-137 | The coupling: the channel is on with an enabled key and off, for that reason, without one |
| MultiKeyRuns.StepCouplesExactly | controller/channel.go:1866-2183 | On any stored row, each of the six actions keeps "channel enabled iff some key is enabled", except exactly a deletion whose rewritten text is empty, or reads as more keys than were kept while no key was enabled |
| MultiKeyRuns.PlainBreaksExactly | controller/channel.go:2030-2183 | On non-empty one-line keys that do not open like a JSON array, the only such deletion is that of a list of auto-disabled keys only |
| MultiKeyRuns.LineBreakBreaksCoupling | controller/channel.go:2030-2111 | For every JSON array of two keys, the second with a line break, a row on which deleting the first breaks the coupling |
| MultiKeyRuns.RunStaysCoupledExactly | controller/channel.go:91-137 | From any coupled row, a run keeps the coupling throughout if and only if it makes none of these deletions |
| MultiKeyRuns.OtherwiseDisabledStays | controller/channel.go:125-137 | A channel disabled by anything but these actions, the relay's own auto-disabling included, keeps its status and reason through every run |
| MultiKeyRuns.CouplingCanBreak | controller/channel.go:2030-2183 | The breaking run, from an enabled channel with an enabled key, for any two plain keys |
| MultiKeyChannel.Channel.FindEnabledKey | controller/channel.go:91-108 | True exactly when some key's effective status is enabled |
| MultiKeyChannel.Channel.DisableIfNoKeyLeft | controller/channel.go:110-123 | Disables the channel with the all-keys reason exactly when no enabled key is left, and tells the caller |
| MultiKeyChannel.Channel.RestoreIfKeyAvailable | controller/channel.go:125-137 | Enables the channel only from the all-keys reason and with an enabled key |
| MultiKeyChannel.Channel.Update | model/channel.go:558-605 | Recomputes the size, drops statuses beyond it, writes the row without a zero key text and reads it back |
| MultiKeyChannel.Channel.DisableKey | controller/channel.go:1866-1910 | The whole new row of a disable request; an index out of range changes nothing |
| MultiKeyChannel.Channel.EnableKey | controller/channel.go:1912-1953 | The whole new row of an enable request; an index out of range changes nothing |
| MultiKeyChannel.Channel.EnableAllKeys | controller/channel.go:1955-1978 | The whole new row, and the number of statuses cleared |
| MultiKeyChannel.Channel.DisableAllKeys | controller/channel.go:1980-2028 | The whole new row, and the number of keys that were enabled; refused when it is zero |
| MultiKeyChannel.Channel.CompactKeys | controller/channel.go:2048-2095 | The re-indexing loop computes the specified compaction |
| MultiKeyChannel.Channel.DeleteKey | controller/channel.go:2030-2111 | The whole new row; accepted exactly when the index is in range and some key remains |
| MultiKeyChannel.Channel.DeleteDisabledKeys | controller/channel.go:2113-2183 | The whole new row, and the number of keys deleted |
| ModelNames.NormalizeIsNormal | controller/channel_upstream_update.go:101-106 | Trimmed, non-blank, free of repetition, with the same visible names |
| UpstreamMeaning.NormalizeInOrder | controller/channel_upstream_update.go:101-106 | Normalising keeps first occurrences, in their order |
| ModelNames.MergeModelNames | controller/channel_upstream_update.go:108-122 | The loop with its seen map yields a normal list of exactly the names of both |
| UpstreamMeaning.MergeInOrder | controller/channel_upstream_update.go:108-122 | Merging leaves the base in front and the new names behind it, in their order |
| UpstreamUpdates.PendingSpec | controller/channel_upstream_update.go:180-239 | The pending lists in order: upstream names neither local, ignored nor redirect targets; local names neither upstream nor redirect sources |
| UpstreamMeaning.PendingExactly | controller/channel_upstream_update.go:180-239 | Name by name: pending for removal exactly when local, no alias and not upstream; for addition exactly when upstream, not local, no redirect target and taken by no rule, where a rule with the prefix takes names only through its trimmed body |
| UpstreamMeaning.PendingInOrder | controller/channel_upstream_update.go:180-239 | Both lists come in the order of the list they are taken from |
| UpstreamMeaning.LocalExactly | model/channel.go:296-301 | The local models are the trimmed, non-blank pieces of the model text |
| UpstreamUpdates.PendingRespectsMapping | controller/channel_upstream_update.go:180-239 | A redirect source is never a pending removal, a redirect target never a pending addition |
| UpstreamUpdates.AppliedChannelExactly | controller/channel_upstream_update.go:958-1006 | The applied list reads back as the retained names in their order followed by the additions, if and only if no addition holds a comma; it has no repetition, and only upstream names are added and only names gone upstream that are no aliases removed |
| UpstreamMeaning.SelectedExactly | controller/channel_upstream_update.go:958-985 | What of a selection counts, name by name |
| UpstreamMeaning.SettingsExactly | controller/channel_upstream_update.go:985-995 | What applying leaves staged and ruled, name by name |
| UpstreamMeaning.ModelsExactly | controller/channel_upstream_update.go:958-985 | The models after applying, name by name, when no addition holds a comma |
| UpstreamUpdates.RedetectionFindsTheRest | controller/channel_upstream_update.go:958-1006 | After a selection of additions, ignores and removals, detecting again against the same upstream, mapping and rules stages exactly what was left over, provided no addition holds a comma and the names that become or stop being rules ignore just themselves |
| UpstreamUpdates.ApplyingAllConvergesExactly | controller/channel_upstream_update.go:958-1006 | After applying everything pending nothing is pending, if and only if no pending name holds a comma and every upstream name kept out by a rule is kept out by one that is not itself pending |
| UpstreamUpdates.ApplyingAllConverges | controller/channel_upstream_update.go:958-1006 | In particular it converges when no pending name holds a comma or starts with the regex prefix |
| UpstreamUpdates.ConsistentExactly | controller/channel_upstream_update.go:958-1006 | Under any matcher, selecting a name always leaves a consistent channel if and only if it has no comma and, as an ignore rule, matches itself and no other name |
| UpstreamUpdates.PlainNameIsConsistent | controller/channel_upstream_update.go:958-1006 | Without the regex prefix, if and only if it has no comma |
| UpstreamUpdates.CommaBreaks | model/channel.go:296-301 | A failing channel for every name with a comma, under any matcher |
| UpstreamUpdates.UnmatchedRuleBreaks | controller/channel_upstream_update.go:180-239 | For every name that does not match itself as a rule, a channel on which ignoring it leaves it pending |
| UpstreamUpdates.BroadRuleBreaks | controller/channel_upstream_update.go:180-239 | For every name that matches another one as a rule, a channel on which ignoring it hides that one |
| UpstreamTask.ChannelRecord.ApplyUpdates | controller/channel_upstream_update.go:958-1006 | The whole new record, the names added and removed, what remains, and whether the models changed |
| UpstreamTask.ChannelRecord.CheckAndPersist | controller/channel_upstream_update.go:513-560 | The whole new record of a detection, with or without automatic adoption; nothing but its time after a failed fetch, nothing at all within the minimum interval unless forced |
| UpstreamMeaning.CheckStages | controller/channel_upstream_update.go:513-560 | What a check stages, name by name, with and without automatic adoption, and what it leaves alone |
| UpstreamTask.SynchronisingConvergesExactly | controller/channel_upstream_update.go:513-560 | After automatic adoption the same upstream adds nothing, if and only if no adopted name holds a comma; then the models are the old and the adopted ones and the staged removals would be found again |
| UpstreamTask.ScanEnabled | controller/channel_upstream_update.go:712-800 | Over a table that changes between queries the keyset-paged scan ends, visits no channel twice and none that was never enabled, and, unless cancelled, misses none that stayed enabled |
| UpstreamTask.PageOrdered | controller/channel_upstream_update.go:712-740 | A page is in ascending order and holds only enabled identifiers from its start |
| UpstreamTask.PageComplete | controller/channel_upstream_update.go:712-740 | A page misses nothing up to its last identifier, and a short page misses nothing at all |
| ObservationLimiter.Limiter.Acquire | controller/plugin_protocol_limiter.go:65-131 | The verdict is a function of the outstanding leases in the four scopes, in the order they are checked; a refusal after any rollback leaves every counter and map exactly as before |
| ObservationLimiter.AdmittedExactly | controller/plugin_protocol_limiter.go:65-131 | Admitted exactly with a plugin, a user and a token, fewer outstanding leases of each than its limit, and fewer altogether |
| ObservationLimiter.RefusedExactly | controller/plugin_protocol_limiter.go:65-131 | A refusal names the first thing missing or used up, in this order, with its limit |
| ObservationLimiter.Lease.Release | controller/plugin_protocol_limiter.go:133-156 | The first call gives back all four counts and removes this lease only; a repeated one changes nothing |
| ObservationLimiter.Limiter.GiveBack | controller/plugin_protocol_limiter.go:133-156 | The critical section keeps every entry positive and equal to its outstanding leases, within its limit |
| ObservationLimiter.AdmittedTracks | controller/plugin_protocol_limiter.go:65-131 | One lease more raises every entry to the number of outstanding leases in its scope |
| ObservationLimiter.ReleaseKeeps | controller/plugin_protocol_limiter.go:133-156 | Any one lease less lowers every entry to that number, keeps it positive or deletes it, and keeps it within its limit |
| ObservationLimiter.SumOfCounts | controller/plugin_protocol_limiter.go:65-156 | A map that counts the leases of each key adds up to their number |
| ObservationLimiter.CountersAgree | controller/plugin_protocol_limiter.go:65-156 | The global counter equals the sum of each of the three maps and the number of outstanding leases |
| ObservationLimiter.RollbackRestores | controller/plugin_protocol_limiter.go:65-131 | Raising an entry and lowering it again restores the map, entry deletion included |
| BodyCursor.SameAnswersExactly | common/body_storage.go:62-275 | Memory and disk storage of one payload answer a whole run of reads, seeks, contents, new readers and closes alike if and only if no read is empty at the end or longer than one file read serves, and no seek goes where no file can be put |
| BodyCursor.OrdinaryCallsAgree | common/body_storage.go:62-275 | Non-empty reads of ordinary length and seeks to places a file can be put never tell the storages apart, in whatever order |
| BodyCursor.EmptyReadAtTheEndDiffers | common/body_storage.go:62-69 | The smallest run they answer differently |
| BodyCursor.SeeksAgreeExactly | common/body_storage.go:71-78 | The wrapped 64-bit sum of the one and the bounded sum of the other refuse the same seeks, but exactly for those between the largest offset of a file and the largest word |
| BodyCursor.ReadsHandOverTheRest | common/body_storage.go:196-203 | Reads with non-empty buffers of any sizes hand over the rest of the payload in order without a gap |
| BodyCursor.ReadsExactly | common/body_storage.go:62-69 | Which bytes one read hands over and where it leaves the cursor, for both storages |
| BodyCursor.SeeksExactly | common/body_storage.go:71-78 | Where a seek goes, and when it is refused without moving the cursor |
| BodyCursor.ContentsAreWhole | common/body_storage.go:89-96 | After any run without a close the contents, and a new reader, are the whole payload, from either storage, wherever the cursor is |
| BodyCursor.ReplayYieldsThePayload | common/body_storage.go:98-108 | A reader opened at any time yields the whole payload through buffers of any sizes, from either storage |
| BodyCursor.ObserversAreTransparent | common/body_storage.go:225-275 | Taking the contents or opening readers in the middle of a run of a disk storage, whose cursor they share, changes no other answer |
| BodyCursor.ClosedForGood | common/body_storage.go:62-108 | After a close both storages refuse everything alike, and closing again succeeds |
| BodyCursor.ClosesForGood | common/body_storage.go:80-108 | From the first close of a run on, everything but a further close is refused |
| BodyAccounts.LimitKeptExactly | common/body_storage.go:307-348 | On both paths a reader's body is refused as too large exactly when longer than the limit (unless the reader's own error comes along with the one byte too many, which is then the answer) and otherwise stored whole, if and only if the limit is not the largest word or the body is empty |
| BodyAccounts.BytesStoredExactly | common/body_storage.go:286-304 | A body goes to disk exactly when the cache is on, it reaches the threshold, there is room and the file works; what is counted for it |
| BodyAccounts.ReaderStoredExactly | common/body_storage.go:307-348 | The same for a body from a reader, by its declared or its own length, hits included |
| BodyAccounts.FaultsStayHonest | common/body_storage.go:159-194 | A failing cache file can only turn the promised outcome into a disk error, on the disk path |
| BodyAccounts.StepAccounts | common/disk_cache_config.go:108-134 | Creations, failed creations, fallbacks and closes keep all four counters equal to the count and size of the open storages of each kind |
| BodyAccounts.RunAccounts | common/disk_cache_config.go:108-134 | The same over every run, with settings that may change |
| BodyAccounts.ClampNeverTaken | common/disk_cache_config.go:114-121 | The clamp at zero never decides: a close takes away exactly what the creation added |
| BodyCounters.NeverClamped | common/disk_cache_config.go:108-121 | In every interleaving of the single atomic adds of all creations and closes, no disk counter falls below zero and each is exactly what was added and not yet taken back |
| BodyCounters.ExactAtRest | common/disk_cache_config.go:108-121 | Whenever no creation or close is under way, these sums are the number and the total size of the open storages |
| BodyAccounts.SecondCloseIsNeutral | common/body_storage.go:80-87 | Closing again changes nothing |
| BodyAccounts.NothingLeaks | common/body_storage.go:286-348 | Once every storage is closed all counters are zero |
| BodyAccounts.DiskUsageStaysWithinMaximum | common/disk_cache_config.go:169-178 | With declared lengths that the bodies do not exceed and steady settings, disk usage never exceeds the configured maximum |
| BodyAccounts.MaximumKeptExactly | common/body_storage.go:307-327 | A creation from a reader keeps every cache within its maximum, if and only if it is not a complete body within the limit whose declared length reaches the threshold and either falls short of the body while fitting the cache or overflows when added to the maximum |
| BodyAccounts.UnderstatedLengthOverfills | common/body_storage.go:307-327 | A declared length of one for a body of three overfills a cache of two |
| BodyStorage.DiskCacheStats.DecrementDiskFiles | common/disk_cache_config.go:114-121 | Both clamped subtractions |
| BodyStorage.MemoryStorage.Read | common/body_storage.go:62-69 | Buffer, count, end and cursor are the model's answer |
| BodyStorage.MemoryStorage.Seek | common/body_storage.go:71-78 | Position and cursor are the model's answer |
| BodyStorage.MemoryStorage.Close | common/body_storage.go:80-87 | The first close counts down, a later one does not |
| BodyStorage.MemoryStorage.NewReader | common/body_storage.go:98-108 | A fresh reader at the start of the payload, refused once closed |
| BodyStorage.DiskStorage.Read | common/body_storage.go:196-203 | Buffer, count, end and cursor are the model's answer |
| BodyStorage.DiskStorage.Seek | common/body_storage.go:205-212 | Position and cursor are the model's answer |
| BodyStorage.DiskStorage.Close | common/body_storage.go:214-223 | The first close closes and unlinks the file and counts down, a later one does not |
| BodyStorage.DiskStorage.AllBytes | common/body_storage.go:225-257 | Seeking to the start, reading in full in however many calls, and seeking back yields the payload and leaves the cursor where it was |
| BodyStorage.DiskStorage.NewReader | common/body_storage.go:259-275 | A fresh descriptor on the same file at its start, refused once closed |
| BodyStorage.File.ReadFull | common/body_storage.go:245-250 | The buffer is filled exactly when the file holds enough from the cursor on |
| BodyStorage.NewDiskStorage | common/body_storage.go:127-157 | A storage on exactly the data, counted, or nothing at all when a file call fails |
| BodyStorage.NewDiskStorageFromReader | common/body_storage.go:159-194 | The specified outcome, counted only when stored |
| BodyStorage.CreateBodyStorage | common/body_storage.go:286-304 | Disk or memory as the settings and the room say, memory when the disk fails; storage and counters as specified |
| BodyStorage.CreateBodyStorageFromReader | common/body_storage.go:307-348 | Storage or error, counters and hits as specified |
| Quota.SaturationIsReported | common/quota_math.go:86-100 | The result is in the domain, a clamp is reported exactly for NaN and what is outside, and an unclamped result is the value cut toward zero |
| Quota.StrictRoundingExactly | common/quota_math.go:102-148 | Strict rounding accepts exactly the values that round into the domain, with that rounding, and otherwise rejects with the clamp the checked form reports, whose kind tells NaN, too large and too small apart |
| Quota.StrictWalletExactly | common/quota_math.go:172-175 | The same for wallet amounts |
| Quota.StrictTruncationExactly | common/quota_math.go:112-127 | Strict truncation accepts exactly the values inside the domain, so it rejects some whose truncation fits |
| Quota.HalfAwayIsNearest | common/quota_math.go:139-142 | Rounding is to the nearest integer, halves away from zero, odd in the sign |
| Quota.ChargeBounds | controller/channel-test.go:593-604 | The ratio charge is between 0 and the maximum, at least 1 for a model with a ratio and 0 for one without |
| Quota.ChargeMonotone | controller/channel-test.go:593-604 | The charge is monotone in both token counts and both ratios through three saturating roundings |
| Quota.ChargeIsAccurate | controller/channel-test.go:593-604 | Away from saturation the charge is within half the model ratio plus a half of the exact price, or is the minimum of 1 |
| Quota.PriceChargeMonotone | controller/channel-test.go:604-604 | The fixed-price charge is in the domain, at most the price, short of it by less than one unless saturated, and monotone |
| OpusScan.GetOpusDuration | common/audio.go:198-256 | Ends on every byte sequence, with the highest signed granule position of the pages found, at least 0, over the sample rate |
| OpusScan.GranuleReadsBack | common/audio.go:231-232 | Eight little-endian bytes read back every signed position |
| OpusPages.EachPageOnce | common/audio.go:198-256 | In a stream of well-formed pages (section 6 of RFC 3533) with other bytes before, between and after them in which no capture pattern starts, each page is visited once, in order and at its place, and nothing else is |
| OpusPages.StreamDuration | common/audio.go:198-256 | For such a stream the total is the maximum of 0 and all signed granule positions, and the duration that many 48000ths of a second |
| OpusPages.PatternIsFourLetters | common/audio.go:222-222 | The pattern is "OggS" |
| OpusPages.PositionBytes | common/audio.go:230-231 | A position is its eight bytes, lowest first, as a signed word |
| OpusPages.SumAdds | common/audio.go:244-247 | The length of a page body is the plain sum of its lacing values |
| OpusPages.NoCaptureAcross | common/audio.go:222-229 | Bytes without the pattern cannot form one together with the page behind them |
| OpusPages.VisitsAreHeaders | common/audio.go:198-256 | On any bytes at all the scan only stops at the pattern with a whole header, each time further on than the last |

## Left out

- HTTP handlers, database access, caches other than those above, upstream fetches, notifications and logs: calls into code with no state of its own worth proving.
- The task-plugin protocol bridge: its state machine and JavaScript engine are not part of this model.
- Settlement by a tiered expression, and the computation of prices before a charge: the expression engine is not part of this model.
- Floating-point rounding error, and the conversion of the selected costs to ratios after the provider selection.
- The exact-rational assembly of local prices that precedes the comparison (controller/ratio_sync.go:601-622).
- 64-bit wrap-around outside body sizes and positions; counters elsewhere are unbounded.
- Two concurrent creations of body storage that both pass the room check: checking and counting are one step in the bound on disk usage. The counter updates themselves are covered in every interleaving.
- Removal of old cache files and the resynchronisation or reset of the disk counters: they set the counters from the file system.
- A caller that writes to the slice `Bytes` returns: it would change a memory storage and not a disk one.
- Seeking with a whence other than the three of the io package, and I/O errors of a cache file after its creation.
- The choice among enabled keys by polling or at random, and the single-key handler outside the management actions.
- A nil map of disabled reasons or times, negative indices, and a row read back while another request writes it.
- Failing database queries in the paged scan, which end it early, failing writes of a channel, and keys already parsed into memory (model/channel.go:186-188), which the management actions do not have.
- Starting the limiter's clean-up goroutine, its interval, and starting it only once.
- Clocks that step backwards, a key whose duration changes, and the mix of Request and Reserve on one key in the window bound; the answers themselves are covered for any mix.
- UpstreamTask.ScanEnabled: the identifiers of channels are bounded for the length of a scan, because a table that grows by a full page for every query would keep the scan going for ever.
- BodyAccounts.MaximumKeptExactly: bodies whose length overflows a 64-bit word when added to the cache's maximum are not covered, because no such body can arrive.
