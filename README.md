# Browser activity tracker: epoch accounting and record merging

This project models the core of a browser extension that measures how active
a user is in fixed-length epochs (15 minutes by default) and keeps one
record per epoch, keyed by the epoch's start time.

- `background.dfy` models the background worker. It holds the epoch being
  tracked (`startTime`, `activeSeconds`, `totalSeconds`, `epochDuration`) and
  the tracking flag. Each idle-state poll sets the total to the whole seconds
  elapsed. An active poll credits 15 seconds, capped at that total. Once the
  duration has elapsed, the epoch is finalised into a record scored
  `round(active / total * 100)`, and a new epoch starts. The worker is a
  class whose methods update these fields in place.
- `storage.dfy` models the storage manager: settings and their defaults,
  the `chunkDuration` to `epochDuration` migration, the rescoring and
  timestamp check of `saveActivityEpoch`, the retention guard, and the
  export and import formats. A class owns the three stores: the epoch
  records, the synced settings and the saved current epoch.
- `merge.dfy` models the record transformations: the activity merge of a
  bulk import, the history merge, and the history removal. Each loop is a
  method proved equal to a specification function, and the properties are
  lemmas about that function.
- `history_import.dfy` models the bucketing of browser-history visits into
  epoch-aligned windows, scored `min(100, 10 * visits)`.
- `records.dfy` defines the epoch record and the epoch store. The store
  keeps one record per timestamp and lists its records in ascending
  timestamp order, so it is a strictly sorted sequence. A put overwrites
  the record stored under the same timestamp.
- `options.dfy` defines the `Option` type used for absent JavaScript
  properties.

JavaScript details are modelled explicitly:

- `x || 0` on an optional number is `OrZero`.
- Truthiness on a number (absent or 0 is false) is `Truthy`.
- A `null` start time is 0, which behaves the same in the arithmetic.
- `Math.floor(t / ms)` with a positive `ms` is Dafny's `/`.
- `Math.round(a / t * 100)` is the exact `(200a + t) / (2t)`.
- The stable `Array.prototype.sort` by timestamp is an insertion sort.

## Model

| member | source | states |
|---|---|---|
| Records.SortByTimestamp | storage-manager.js:440 | the sorted listing is a permutation of its input (same multiset) |
| Records.SortByTimestampSorted | storage-manager.js:466 | the sorted listing is in ascending timestamp order, strictly ascending when the input timestamps are unique |
| Records.SortByTimestampStable | storage-manager.js:466 | the sort is stable: for every timestamp, the records carrying it appear in the sorted listing in their input order |
| Records.SortedIsFixpoint | storage-manager.js:466 | an already sorted listing comes back from the sort unchanged |
| Records.Upsert | storage-manager.js:182 | putting a record keeps the store strictly sorted; its timestamps become the old ones plus the record's |
| Records.UpsertLookup | storage-manager.js:182 | after a put, the record is found under its timestamp and every other timestamp answers as before |
| Records.PutAll | storage-manager.js:305 | putting a batch keeps the store strictly sorted, and its timestamps become the old ones plus the batch's |
| Records.PutAllLookup | storage-manager.js:305 | after putting any batch, duplicates included, each of its timestamps holds the batch's last record with that timestamp and every other timestamp answers as before |
| Records.PutAllCovering | storage-manager.js:304-305 | putting a sorted batch that covers every stored timestamp leaves exactly that batch in the store |
| Merge.Champion | storage-manager.js:456-461 | the record holding an existing slot has its timestamp; it is the original or an imported record with a strictly higher score; no imported record with that timestamp scores higher than it |
| Merge.ChampionKeeps | storage-manager.js:459 | a slot keeps its record exactly when no imported record with its timestamp scores strictly higher |
| Merge.NewRecords | storage-manager.js:454-455 | a record is appended exactly when it is imported and its timestamp is not among the existing ones |
| Merge.MergeActivityData | storage-manager.js:448-469 | the merge loop and sort return `MergedActivity(existing, imported)` |
| Merge.MergeActivityFoldShape | storage-manager.js:449-463 | before sorting, the merged array holds the existing slots in place, then the new imported records in import order |
| Merge.MergedActivityTimestamps | storage-manager.js:448-469 | the merged timestamps are exactly the existing timestamps plus the imported ones, so none is lost |
| Merge.MergedActivityLength | storage-manager.js:449-463 | the merge has one record per existing record plus one per new imported record |
| Merge.MergedActivityAdds | storage-manager.js:454-455 | an imported record whose timestamp is absent is in the result |
| Merge.MergedActivityAt | storage-manager.js:456-461 | with unique stored timestamps, the record at an existing timestamp is that record's champion: it is replaced only by a strictly higher score |
| Merge.MergedActivityDominated | storage-manager.js:459 | importing records that match the store timestamp for timestamp with no higher score leaves the store listing unchanged |
| Merge.MergedActivitySelf | storage-manager.js:459 | merging a store listing with itself changes nothing |
| Merge.MergedActivitySorted | storage-manager.js:466 | the merged listing is sorted by ascending timestamp |
| Merge.MergedActivityWithTimestamp | storage-manager.js:450-455 | for a timestamp the store does not hold, the merged listing carries exactly the imported records with that timestamp, in import order |
| Merge.MergedActivityKeepsImportedDuplicates | storage-manager.js:450-455 | two different imported records that share a new timestamp are both added |
| Merge.NewHistory | storage-manager.js:433-436 | every appended record comes from a history epoch whose timestamp is not stored |
| Merge.HistoryFold | storage-manager.js:415-438 | the history loop keeps a record with each existing timestamp in that record's position |
| Merge.MergeHistoryData | storage-manager.js:414-442 | the history merge loop and sort return `MergedHistory(existing, historyEpochs)` |
| Merge.HistoryFoldShape | storage-manager.js:415-438 | before sorting, the merged array holds each existing slot, updated by the last history epoch of its timestamp, then the new history records |
| Merge.NewHistoryTimestamps | storage-manager.js:433-436 | the appended timestamps are the history timestamps not already stored |
| Merge.NewHistoryUnique | storage-manager.js:433-436 | history epochs with unique timestamps append records with unique timestamps |
| Merge.MergedHistoryTimestamps | storage-manager.js:414-442 | no stored timestamp is lost, every history timestamp is added, and the length is the stored count plus the new ones |
| Merge.MergedHistoryAt | storage-manager.js:419-432 | with unique stored timestamps, an existing record touched by history gets the last history score and activityScore `max(trackerScore or 0, historyScore)` and keeps its trackerScore; an untouched one is unchanged |
| Merge.MergedHistoryAdds | storage-manager.js:433-436 | a history epoch with a new timestamp is added with activityScore equal to historyScore and no trackerScore |
| Merge.MergedHistorySorted | storage-manager.js:440 | the merged listing is sorted by ascending timestamp |
| Merge.MergedHistoryStrictlySorted | storage-manager.js:440 | with unique stored and history timestamps, the merged listing is strictly ascending |
| Merge.MergedHistoryScoresInRange | storage-manager.js:425-435 | activity scores stay in 0..100 when the stored and history scores do |
| Merge.HistoryMergeLowersUntrackedScore | storage-manager.js:425-432 | a record without trackerScore scored 90 drops to 10 when a history score of 10 is merged into it |
| Merge.StripOne | storage-manager.js:380-395 | a record is dropped exactly when it has a historyScore and no trackerScore; a kept record has no historyScore, keeps its timestamp, and has activityScore `trackerScore or 0` if it was stripped; a record without history passes unchanged |
| Merge.StripHistory | storage-manager.js:379-396 | the cleaned listing is no longer than the input and no record in it has a historyScore |
| Merge.StripHistoryData | storage-manager.js:376-396 | the removal loop returns `StripHistory(allData)` and a deleted count equal to the number of records dropped |
| Merge.StripHistoryKeeps | storage-manager.js:388-394 | every record that the removal keeps appears, stripped, in the cleaned listing |
| Merge.StripHistoryTimestamps | storage-manager.js:379-396 | the cleaned timestamps are exactly those of the kept records |
| Merge.StripHistoryStrictlySorted | storage-manager.js:379-396 | the removal keeps a strictly sorted listing strictly sorted |
| Merge.HistoryRemovalRestoresTracked | storage-manager.js:384-389 | importing history and then deleting it restores every tracker record whose score equals its trackerScore |
| Merge.HistoryRemovalKeepsUntouched | storage-manager.js:393-394 | importing history and then deleting it keeps every record the history did not touch |
| Merge.HistoryRemovalDropsUntracked | storage-manager.js:384-391 | a stored record without trackerScore that history touched is gone after the history is deleted |
| Merge.HistoryRemovalDropsHistoryOnly | storage-manager.js:384-391 | a record created by history is gone after the history is deleted |
| HistoryImport.VisitStamp | storage-manager.js:331-332 | a visit is skipped exactly when both time fields are absent or 0; otherwise `visitTime` wins over `visit_time` |
| HistoryImport.BucketStart | storage-manager.js:335 | the bucket `b` of time `t` satisfies `b <= t < b + ms` and is a multiple of `ms` |
| HistoryImport.BucketStartOfWindow | storage-manager.js:335 | every instant of the window `[k*ms, k*ms + ms)` gets the bucket `k*ms` |
| HistoryImport.BucketOrder | storage-manager.js:337-340 | the buckets in first-seen order are distinct and multiples of `ms`, and a bucket is listed exactly when a visit falls in it |
| HistoryImport.CountVisit | storage-manager.js:337-340 | one visit adds its bucket if new, raises its count by one, leaves other counts alone and raises the total by one |
| HistoryImport.GroupVisits | storage-manager.js:330-341 | the grouping loop returns the buckets in first-seen order, each with its number of visits, and the counts sum to the number of kept visits |
| HistoryImport.HistoryScore | storage-manager.js:347 | the score is `min(100, 10 * count)` |
| HistoryImport.HistoryEpochs | storage-manager.js:326-354 | one history epoch per bucket, with unique aligned timestamps, a visited bucket, score `HistoryScore(count)` in 1..100 and the given duration |
| HistoryImport.BuildHistoryEpochs | storage-manager.js:344-354 | the conversion loop emits one epoch per bucket, in order, scored from its count |
| HistoryImport.ComputeHistoryEpochs | storage-manager.js:326-354 | both loops together compute `HistoryEpochs(visits, epochDuration)` |
| HistoryImport.BucketCountOfVisit | storage-manager.js:335-340 | the bucket of every kept visit has a positive count |
| HistoryImport.HistoryEpochsCoverVisits | storage-manager.js:330-353 | every kept visit's bucket becomes a history epoch |
| HistoryImport.HistoryScoreSaturates | storage-manager.js:347 | ten or more visits give a score of 100 |
| Storage.EffectiveSettings | storage-manager.js:105-113 | getSettings returns the stored settings, or the defaults when none are stored |
| Storage.RenameChunk | storage-manager.js:39-44 | a truthy chunkDuration becomes epochDuration and is removed; other fields are kept; otherwise the settings are unchanged |
| Storage.MigratedSettingsClean | storage-manager.js:37-48 | after the migration no settings object has a truthy chunkDuration or no keys; a renamed duration is kept; settings that need nothing stay as they are |
| Storage.MigratedSettingsIdempotent | storage-manager.js:37-48 | migrating twice gives the same settings as migrating once |
| Storage.MigrateItem | storage-manager.js:68-75 | a record's truthy chunkDuration becomes its epochDuration; its timestamp and score are kept |
| Storage.MigrateItems | storage-manager.js:68-75 | every record is renamed, in order |
| Storage.MigrateItemsIdempotent | storage-manager.js:68-75 | renaming the records twice is the same as renaming once |
| Storage.Rescored | storage-manager.js:169-173 | with a trackerScore or historyScore present, activityScore becomes `max(trackerScore or 0, historyScore or 0)`; otherwise the epoch is untouched; no other field changes |
| Storage.RescoredInRange | storage-manager.js:169-173 | rescoring keeps scores in 0..100 and is idempotent |
| Storage.AfterSave | storage-manager.js:177-182 | saving keeps the store strictly sorted |
| Storage.AfterSaveLookup | storage-manager.js:169-182 | a saved epoch with a non-zero timestamp is found under it, rescored; a zero timestamp or any other timestamp leaves the store's answer unchanged |
| Storage.AfterSaveNoZero | storage-manager.js:177-180 | timestamp 0 never reaches the store |
| Storage.CleanupDecisionFor | storage-manager.js:224-230 | cleanup keeps all data exactly when retentionDays is present and at most 0; otherwise the sweep gets the setting as found |
| Storage.DefaultKeepsAll | storage-manager.js:14-21 | the default retention (-1) never deletes |
| Storage.ToIso | storage-manager.js:254 | the ISO time written for a timestamp reads back as that timestamp |
| Storage.Exported | storage-manager.js:245-262 | the export has `(epochDuration or 15) * 60` seconds per epoch and one entry per stored record, in order, carrying its time and activityScore |
| Storage.ProcessImport | storage-manager.js:278-296 | the epochs format maps each entry in order to `{timestamp, activity, (epoch_length_seconds or 900) / 60}`; the legacy array is taken as is; any other payload is rejected |
| Storage.ExportImportRoundTrip | storage-manager.js:246-289 | importing an export gives back the timestamps and activity scores in order; every record lasts the settings' epochDuration, or 15 minutes when that is absent or 0 |
| Storage.StorageManager.Initialize | storage-manager.js:37-48 | the settings become `MigratedSettings` of the old settings; records and the saved epoch are untouched |
| Storage.StorageManager.GetSettings | storage-manager.js:105-113 | returns `EffectiveSettings` of the stored settings |
| Storage.StorageManager.SaveActivityEpoch | storage-manager.js:162-189 | the store becomes `AfterSave(old store, epoch)`; nothing else changes |
| Storage.StorageManager.ClearAllData | storage-manager.js:209-216 | the store is emptied; nothing else changes |
| Storage.StorageManager.SaveActivityEpochs | storage-manager.js:305 | the store becomes `PutAll(old store, epochs)` |
| Storage.StorageManager.CleanupOldData | storage-manager.js:221-235 | returns the guard's decision for the effective settings |
| Storage.StorageManager.ExportData | storage-manager.js:240-269 | returns `Exported` of the effective settings and the store listing |
| Storage.StorageManager.ImportData | storage-manager.js:276-317 | succeeds exactly when the payload has a known format; a failure changes nothing; merge stores the merged listing, replace stores the imported one |
| Storage.StorageManager.ImportHistoryData | storage-manager.js:324-368 | the store becomes the history merge of the old store with the bucketed visits |
| Storage.StorageManager.DeleteHistoryData | storage-manager.js:373-408 | the store becomes `StripHistory(old store)`, and the deleted count is the number of records dropped |
| Storage.StorageManager.GetCurrentEpoch | storage-manager.js:474-481 | returns the saved current epoch |
| Storage.StorageManager.SaveCurrentEpoch | storage-manager.js:486-492 | the saved current epoch becomes the given one; nothing else changes |
| Storage.ExportMergeImportUnchanged | storage-manager.js:298-305 | importing a store's own export in merge mode leaves the store as it was |
| Storage.MergeImportKeepsLastDuplicate | storage-manager.js:298-305 | when a merge import repeats a timestamp the store does not hold, the store ends with the import's last record for that timestamp |
| Storage.ReplaceImportStoresListing | storage-manager.js:306-309 | replace mode with a strictly sorted listing stores exactly that listing |
| Background.Polled | background.js:113-124 | one poll sets the total to the whole seconds elapsed; an active poll adds 15 active seconds capped at the total; an idle or locked poll leaves them; start and duration are kept |
| Background.PollKeepsInvariant | background.js:113-124 | if `0 <= active <= total` held and the clock does not go back, it holds after the poll; the total never shrinks and the active time grows by at most 15 |
| Background.PollsKeepInvariant | background.js:113-124 | the invariant holds after any run of polls at non-decreasing clock readings |
| Background.ActivityScore | background.js:154-156 | the score is the integer nearest to `100 * active / total`, halves rounded up; it is 0 for an empty epoch and in 0..100 when `active <= total` |
| Background.ActivityScoreExtremes | background.js:154-156 | a fully active epoch scores 100 and an idle one scores 0 |
| Background.FinalizedRecord | background.js:159-163 | the finalised record carries the start time, the activity score and the duration, with no trackerScore or historyScore |
| Background.FinalizedRecordNotRescored | background.js:159-166 | saving a finalised record keeps its activity score |
| Background.FinalizedEpochLostToHistory | background.js:159-163 | a history import over a finalised epoch sets its score to `max(0, historyScore)`, and deleting the history then drops the epoch |
| Background.Tracker.constructor | background.js:12-19 | the initial state has no start time, 15-minute epochs, zero counters and tracking off |
| Background.Tracker.StartNewEpoch | background.js:59-66 | the new epoch starts at `now` with zero counters and keeps the previous duration |
| Background.Tracker.StartTracking | background.js:71-83 | tracking is on afterwards and the epoch is unchanged, so a second call changes nothing |
| Background.Tracker.StopTracking | background.js:88-101 | tracking is off afterwards and the epoch is unchanged, so a second call changes nothing |
| Background.Tracker.FinalizeEpoch | background.js:151-176 | the finalised record is saved, then a new epoch starting at `now` with the same duration is saved as the current one |
| Background.Tracker.CheckIdleState | background.js:106-137 | the epoch is polled; if the duration has elapsed, the polled epoch is finalised into the store and a new epoch starts; otherwise the store is unchanged and the polled epoch is saved as current |
| Background.Tracker.Initialize | background.js:25-45 | settings are migrated; a saved epoch replaces the current one, otherwise a new epoch starts at `now` with the settings' duration; tracking is on |
| Background.Tracker.OnAlarm | background.js:181-189 | `saveEpoch` saves the current epoch, `cleanup` runs the retention guard, and any other name does nothing |

## Left out

- Timers, listeners and I/O are not modelled. This covers `setInterval`, `chrome.alarms.create`, `onInstalled`/`onStartup`/`action.onClicked` and listener registration. Clock readings and the idle oracle's answer are method parameters (`now`, `restartAt`, `state`).
- `handleIdleStateChange` only logs, so it has no state to model.
- The epoch-store internals are not part of this model. The store is a strictly sorted sequence with put, put-all and clear. The age-based deletion that `cleanupOldData` delegates is not modelled, so `CleanupOldData` returns the guard's decision instead.
- The one-off `chrome.storage.local` to IndexedDB migration I/O is not modelled. This includes the current-epoch rename at storage-manager.js:78-81. Only the per-record rename is modelled.
- Logging, the try/catch blocks that swallow errors, and the error paths of `getSettings`/`saveSettings` are not modelled.
- Background.ActivityScore: `Math.round` on floating point is modelled on exact rationals. Floating point can differ when the exact value sits on a .5 boundary.
- Storage.ProcessImport: the `item.t` alias for `item.time` is not modelled. Unparseable dates (NaN timestamps) and entries without `activity` are not modelled either. Timestamps are integers.
- Storage.StorageManager.ImportHistoryData: requires a positive epoch duration. With 0 minutes the source divides by a zero window and produces NaN buckets.
- Background.Tracker.FinalizeEpoch: requires a duration. It is only reached after the elapsed check, and that check is false when the duration is absent (NaN).
- Background.Tracker.CheckIdleState: `0 <= active <= total` is proved for the poll function (`PollKeepsInvariant`), not as a class invariant. `initialize` restores whatever epoch was saved, so the class cannot assume it.
- Concurrency is not modelled. The source's handlers are asynchronous and can interleave at their `await`s: the poll timer, the alarm listener, and `initialize`, which runs at load and again on browser start-up. The model runs each handler to completion, one at a time.
- A JSON `null` setting or epoch field is treated as absent (`None`). In JavaScript, `retentionDays: null` passes the `<= 0` guard and nothing is swept, while the model sweeps. Likewise `epochDuration: null` makes every poll finalise, while `EpochElapsed` is false for an absent duration.
- Records are values, so object aliasing is not modelled. `saveActivityEpoch` mutates its argument, the history merge updates the shared object in both arrays, and `deleteHistoryData` mutates the listed records. The model computes the same resulting records as new values.
- The date-range parameters of `getActivityData`, UI preferences, `getTrackingState`/`saveTrackingState`, `browser-polyfill.js` and `ui-utils.js` are not part of this model.
