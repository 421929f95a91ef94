/**
 * The storage manager (storage-manager.js): settings with their defaults and
 * the chunk-to-epoch migration, the record rescoring and validation of
 * `saveActivityEpoch`, the retention guard, the export and import formats,
 * and the object that owns the three stores the extension keeps: the epoch
 * records, the synced settings and the saved current epoch.
 */
module Storage {
  import opened Options
  import opened Records
  import opened Merge
  import opened HistoryImport

  // ---------------------------------------------------------------------------
  // Settings (storage-manager.js:14-21, 37-48, 105-113)

  /** The synced settings object; every field may be absent, `chunkDuration` is the old name of `epochDuration`. */
  datatype Settings = Settings(
    epochDuration: Option<int>,
    chunkDuration: Option<int>,
    idleThreshold: Option<int>,
    retentionDays: Option<int>,
    colorScheme: Option<string>,
    plotType: Option<string>)

  /** A JavaScript truthiness test on an optional number: absent and 0 are falsy. */
  predicate Truthy(o: Option<int>) {
    o.Some? && o.value != 0
  }

  /** `Object.keys(settings).length === 0`. */
  predicate NoKeys(s: Settings) {
    s.epochDuration.None? && s.chunkDuration.None? && s.idleThreshold.None? &&
    s.retentionDays.None? && s.colorScheme.None? && s.plotType.None?
  }

  /** 15-minute epochs, a 60-second idle threshold, data kept forever (-1), blue, double plot. */
  const DefaultSettings := Settings(Some(15), None, Some(60), Some(-1), Some("blue"), Some("double"))

  /** What getSettings returns for the stored settings: the stored object, or the defaults when nothing is stored. */
  function EffectiveSettings(stored: Option<Settings>): (r: Settings)
    ensures stored.None? ==> r == DefaultSettings
    ensures stored.Some? ==> r == stored.value
  {
    match stored
    case None => DefaultSettings
    case Some(s) => s
  }

  /** The rename: a truthy `chunkDuration` becomes `epochDuration` and is deleted; anything else is left alone. */
  function RenameChunk(s: Settings): (r: Settings)
    ensures Truthy(s.chunkDuration) ==> r.epochDuration == s.chunkDuration && r.chunkDuration.None?
    ensures !Truthy(s.chunkDuration) ==> r == s
    ensures r.idleThreshold == s.idleThreshold && r.retentionDays == s.retentionDays
    ensures r.colorScheme == s.colorScheme && r.plotType == s.plotType
  {
    if Truthy(s.chunkDuration) then s.(epochDuration := s.chunkDuration, chunkDuration := None) else s
  }

  /** The stored settings after the settings migration of `initialize`. */
  function MigratedSettings(stored: Option<Settings>): (r: Option<Settings>)
  {
    var settings := EffectiveSettings(stored);
    var renamed := RenameChunk(settings);
    if NoKeys(renamed) then Some(DefaultSettings)
    else if Truthy(settings.chunkDuration) then Some(renamed)
    else stored
  }

  /** After the migration no settings object has a truthy `chunkDuration` or no keys, and a renamed duration is kept. */
  lemma MigratedSettingsClean(stored: Option<Settings>)
    ensures !Truthy(EffectiveSettings(MigratedSettings(stored)).chunkDuration)
    ensures !NoKeys(EffectiveSettings(MigratedSettings(stored)))
    ensures stored.Some? && Truthy(stored.value.chunkDuration) ==>
      MigratedSettings(stored) == Some(RenameChunk(stored.value)) &&
      EffectiveSettings(MigratedSettings(stored)).epochDuration == stored.value.chunkDuration
    ensures stored.Some? && !Truthy(stored.value.chunkDuration) && !NoKeys(stored.value) ==>
      MigratedSettings(stored) == stored
  {
  }

  /** Running the migration twice is the same as running it once. */
  lemma MigratedSettingsIdempotent(stored: Option<Settings>)
    ensures MigratedSettings(MigratedSettings(stored)) == MigratedSettings(stored)
  {
    MigratedSettingsClean(stored);
  }

  /** A record of the old `chrome.storage.local` listing that may still say `chunkDuration`. */
  datatype LegacyItem = LegacyItem(timestamp: int, activityScore: int, epochDuration: Option<int>, chunkDuration: Option<int>)

  /** The per-record rename of the storage migration. */
  function MigrateItem(item: LegacyItem): (r: LegacyItem)
    ensures Truthy(item.chunkDuration) ==> r.epochDuration == item.chunkDuration && r.chunkDuration.None?
    ensures !Truthy(item.chunkDuration) ==> r == item
    ensures r.timestamp == item.timestamp && r.activityScore == item.activityScore
  {
    if Truthy(item.chunkDuration) then item.(epochDuration := item.chunkDuration, chunkDuration := None) else item
  }

  /** `activityData.map(...)`: every record renamed, in order. */
  function MigrateItems(items: seq<LegacyItem>): (r: seq<LegacyItem>)
    ensures |r| == |items|
    ensures forall i :: 0 <= i < |items| ==> r[i] == MigrateItem(items[i])
  {
    seq(|items|, i requires 0 <= i < |items| => MigrateItem(items[i]))
  }

  lemma MigrateItemsIdempotent(items: seq<LegacyItem>)
    ensures MigrateItems(MigrateItems(items)) == MigrateItems(items)
  {
  }

  // ---------------------------------------------------------------------------
  // saveActivityEpoch (storage-manager.js:162-189)

  /** The rescoring: with a tracker or a history score, activityScore is the larger of the two (absent counts as 0). */
  function Rescored(e: Epoch): (r: Epoch)
    ensures e.trackerScore.Some? || e.historyScore.Some? ==>
      r.activityScore == Max(OrZero(e.trackerScore), OrZero(e.historyScore))
    ensures e.trackerScore.None? && e.historyScore.None? ==> r == e
    ensures r.(activityScore := e.activityScore) == e
  {
    if e.trackerScore.Some? || e.historyScore.Some? then
      e.(activityScore := Max(OrZero(e.trackerScore), OrZero(e.historyScore)))
    else e
  }

  /** Rescoring keeps scores in 0..100 and is idempotent. */
  lemma RescoredInRange(e: Epoch)
    requires 0 <= e.activityScore <= 100
    requires 0 <= OrZero(e.trackerScore) <= 100 && 0 <= OrZero(e.historyScore) <= 100
    ensures 0 <= Rescored(e).activityScore <= 100
    ensures Rescored(Rescored(e)) == Rescored(e)
  {
  }

  /** The store after saveActivityEpoch(e): a falsy (0) timestamp is never stored. */
  function AfterSave(s: seq<Epoch>, e: Epoch): (r: seq<Epoch>)
    requires StrictlySorted(s)
    ensures StrictlySorted(r)
  {
    if e.timestamp == 0 then s else Upsert(s, Rescored(e))
  }

  /** A saved epoch is found under its timestamp with its rescored value; other timestamps are undisturbed. */
  lemma AfterSaveLookup(s: seq<Epoch>, e: Epoch, t: int)
    requires StrictlySorted(s)
    ensures e.timestamp != 0 && t == e.timestamp ==> Lookup(AfterSave(s, e), t) == Some(Rescored(e))
    ensures e.timestamp == 0 || t != e.timestamp ==> Lookup(AfterSave(s, e), t) == Lookup(s, t)
  {
    if e.timestamp != 0 {
      UpsertLookup(s, Rescored(e), t);
    }
  }

  /** A store without timestamp 0 never gets one through saveActivityEpoch. */
  lemma AfterSaveNoZero(s: seq<Epoch>, e: Epoch)
    requires StrictlySorted(s) && 0 !in Timestamps(s)
    ensures 0 !in Timestamps(AfterSave(s, e))
  {
  }

  // ---------------------------------------------------------------------------
  // cleanupOldData guard (storage-manager.js:221-235)

  /** Either nothing is deleted, or the store's age-based sweep runs with the setting as found (possibly absent). */
  datatype CleanupDecision = KeepAll | Sweep(retentionDays: Option<int>)

  /** `retentionDays <= 0` keeps all data; an absent setting compares false in JavaScript and goes on to the sweep. */
  function CleanupDecisionFor(settings: Settings): (r: CleanupDecision)
    ensures r == KeepAll <==> settings.retentionDays.Some? && settings.retentionDays.value <= 0
    ensures r.Sweep? ==> r.retentionDays == settings.retentionDays
  {
    match settings.retentionDays
    case Some(d) => if d <= 0 then KeepAll else Sweep(settings.retentionDays)
    case None => Sweep(None)
  }

  /** The default retention (-1, forever) never deletes. */
  lemma DefaultKeepsAll()
    ensures CleanupDecisionFor(EffectiveSettings(None)) == KeepAll
  {
  }

  // ---------------------------------------------------------------------------
  // exportData / importData formats (storage-manager.js:240-317)

  /**
   * An ISO-8601 instant as `toISOString` writes it for a millisecond
   * timestamp; `new Date(...).getTime()` reads the timestamp back, so the
   * conversion is modelled by this injective wrapper.
   */
  datatype IsoTime = IsoTime(millis: int)

  function ToIso(millis: int): (r: IsoTime)
    ensures ParseTime(r) == millis
  {
    IsoTime(millis)
  }

  function ParseTime(t: IsoTime): (r: int) {
    t.millis
  }

  /** One exported entry `{time, activity}`. */
  datatype ExportedEpoch = ExportedEpoch(time: IsoTime, activity: int)

  /** The export object `{epoch_length_seconds, time_zone, epochs}`. */
  datatype ExportObject = ExportObject(epochLengthSeconds: int, timeZone: string, epochs: seq<ExportedEpoch>)

  /** The export of a store listing under the given settings; the time zone is an input. */
  function Exported(settings: Settings, records: seq<Epoch>, timeZone: string): (r: ExportObject)
    ensures r.epochLengthSeconds == (if Truthy(settings.epochDuration) then settings.epochDuration.value else 15) * 60
    ensures |r.epochs| == |records|
    ensures forall i :: 0 <= i < |records| ==>
      ParseTime(r.epochs[i].time) == records[i].timestamp && r.epochs[i].activity == records[i].activityScore
    ensures r.timeZone == timeZone
  {
    var epochDuration := if Truthy(settings.epochDuration) then settings.epochDuration.value else 15;
    ExportObject(epochDuration * 60, timeZone,
      seq(|records|, i requires 0 <= i < |records| => ExportedEpoch(ToIso(records[i].timestamp), records[i].activityScore)))
  }

  /** What an import payload may hold: the new `epochs` format, the legacy `activityData` array, or neither. */
  datatype ImportPayload = ImportPayload(
    epochs: Option<seq<ExportedEpoch>>,
    epochLengthSeconds: Option<int>,
    activityData: Option<seq<Epoch>>)

  /** The minutes an imported epoch lasts: `(epoch_length_seconds || 900) / 60`. */
  function ImportedDuration(p: ImportPayload): (r: real) {
    (if Truthy(p.epochLengthSeconds) then p.epochLengthSeconds.value else 900) as real / 60.0
  }

  function ImportedRecord(item: ExportedEpoch, epochDuration: real): (r: Epoch) {
    Epoch(ParseTime(item.time), item.activity, epochDuration, None, None)
  }

  /** The `processedData` of importData; None is the thrown "Invalid import data format". */
  function ProcessImport(p: ImportPayload): (r: Option<seq<Epoch>>)
    ensures r.None? <==> p.epochs.None? && p.activityData.None?
    ensures p.epochs.Some? ==> r.Some? && |r.value| == |p.epochs.value|
    ensures p.epochs.Some? ==>
      (forall i :: 0 <= i < |p.epochs.value| ==> r.value[i] == ImportedRecord(p.epochs.value[i], ImportedDuration(p)))
    ensures p.epochs.None? && p.activityData.Some? ==> r == p.activityData
  {
    match p.epochs
    case Some(items) =>
      var d := ImportedDuration(p);
      Some(seq(|items|, i requires 0 <= i < |items| => ImportedRecord(items[i], d)))
    case None => p.activityData
  }

  /** The payload an export object is read back as. */
  function AsPayload(x: ExportObject): (r: ImportPayload) {
    ImportPayload(Some(x.epochs), Some(x.epochLengthSeconds), None)
  }

  /**
   * Exporting a store and importing the file again in replace mode gives back
   * the same timestamps and activity scores, in order, with the exported
   * epoch length; tracker and history scores are not part of the format.
   */
  lemma ExportImportRoundTrip(settings: Settings, records: seq<Epoch>, timeZone: string)
    ensures var r := ProcessImport(AsPayload(Exported(settings, records, timeZone)));
      && r.Some? && |r.value| == |records|
      && forall i :: 0 <= i < |records| ==>
        r.value[i].timestamp == records[i].timestamp && r.value[i].activityScore == records[i].activityScore
    ensures forall e :: e in ProcessImport(AsPayload(Exported(settings, records, timeZone))).value ==>
      e.epochDuration == (if Truthy(settings.epochDuration) then settings.epochDuration.value else 15) as real
  {
    var x := Exported(settings, records, timeZone);
    var d := ImportedDuration(AsPayload(x));
    var minutes := if Truthy(settings.epochDuration) then settings.epochDuration.value else 15;
    if minutes != 0 {
      assert d == (minutes * 60) as real / 60.0;
    }
  }

  // ---------------------------------------------------------------------------
  // The store owner

  /**
   * The state the storage manager reaches: the epoch records (IndexedDB), the
   * synced settings (`chrome.storage.sync`, absent until first saved) and the
   * saved current epoch.
   */
  class StorageManager {
    var records: seq<Epoch>
    var syncSettings: Option<Settings>
    var savedCurrentEpoch: Option<CurrentEpoch>

    ghost predicate Valid()
      reads this
    {
      StrictlySorted(records)
    }

    constructor ()
      ensures Valid()
      ensures records == [] && syncSettings.None? && savedCurrentEpoch.None?
    {
      records := [];
      syncSettings := None;
      savedCurrentEpoch := None;
    }

    /** The settings part of initialize: the chunk-to-epoch rename, then the defaults for an empty object. */
    method Initialize()
      requires Valid()
      modifies this
      ensures Valid()
      ensures syncSettings == MigratedSettings(old(syncSettings))
      ensures records == old(records) && savedCurrentEpoch == old(savedCurrentEpoch)
    {
      var settings := GetSettings();
      if Truthy(settings.chunkDuration) {
        settings := settings.(epochDuration := settings.chunkDuration, chunkDuration := None);
        syncSettings := Some(settings);
      }
      if NoKeys(settings) {
        syncSettings := Some(DefaultSettings);
      }
    }

    method GetSettings() returns (settings: Settings)
      ensures settings == EffectiveSettings(syncSettings)
    {
      settings := if syncSettings.Some? then syncSettings.value else DefaultSettings;
    }

    method SaveActivityEpoch(epoch: Epoch)
      requires Valid()
      modifies this
      ensures Valid()
      ensures records == AfterSave(old(records), epoch)
      ensures syncSettings == old(syncSettings) && savedCurrentEpoch == old(savedCurrentEpoch)
    {
      var e := epoch;
      if e.trackerScore.Some? || e.historyScore.Some? {
        var tracker := OrZero(e.trackerScore);
        var history := OrZero(e.historyScore);
        e := e.(activityScore := Max(tracker, history));
      }
      if e.timestamp == 0 {
        return;
      }
      records := Upsert(records, e);
    }

    method ClearAllData()
      modifies this
      ensures Valid()
      ensures records == [] && syncSettings == old(syncSettings) && savedCurrentEpoch == old(savedCurrentEpoch)
    {
      records := [];
    }

    /** `IndexedDBManager.saveActivityEpochs`: every record is put under its timestamp, later ones overwriting earlier ones. */
    method SaveActivityEpochs(epochs: seq<Epoch>)
      requires Valid()
      modifies this
      ensures Valid()
      ensures records == PutAll(old(records), epochs)
      ensures syncSettings == old(syncSettings) && savedCurrentEpoch == old(savedCurrentEpoch)
    {
      records := PutAll(records, epochs);
    }

    /** The guard of cleanupOldData; the age-based sweep it hands over to is not part of this model. */
    method CleanupOldData() returns (decision: CleanupDecision)
      ensures decision == CleanupDecisionFor(EffectiveSettings(syncSettings))
    {
      var settings := GetSettings();
      var retentionDays := settings.retentionDays;
      if retentionDays.Some? && retentionDays.value <= 0 {
        return KeepAll;
      }
      decision := Sweep(retentionDays);
    }

    method ExportData(timeZone: string) returns (exported: ExportObject)
      ensures exported == Exported(EffectiveSettings(syncSettings), records, timeZone)
    {
      var settings := GetSettings();
      exported := Exported(settings, records, timeZone);
    }

    /**
     * importData: an unreadable payload fails before anything is cleared;
     * otherwise the store is cleared and refilled with the merged listing
     * (merge) or the imported one (replace).
     */
    method ImportData(payload: ImportPayload, merge: bool) returns (ok: bool)
      requires Valid()
      modifies this
      ensures Valid()
      ensures ok <==> ProcessImport(payload).Some?
      ensures !ok ==> records == old(records)
      ensures ok && merge ==> records == PutAll([], MergedActivity(old(records), ProcessImport(payload).value))
      ensures ok && !merge ==> records == PutAll([], ProcessImport(payload).value)
      ensures syncSettings == old(syncSettings) && savedCurrentEpoch == old(savedCurrentEpoch)
    {
      var processed := ProcessImport(payload);
      if processed.None? {
        return false;
      }
      if merge {
        var existingData := records;
        var mergedData := MergeActivityData(existingData, processed.value);
        ClearAllData();
        SaveActivityEpochs(mergedData);
      } else {
        ClearAllData();
        SaveActivityEpochs(processed.value);
      }
      ok := true;
    }

    /**
     * importHistoryData: visits are bucketed into history epochs, merged into
     * the listing and saved back (without clearing, which the merged listing
     * covers anyway).
     */
    method ImportHistoryData(visits: seq<Visit>, epochDuration: int)
      requires Valid() && epochDuration > 0
      modifies this
      ensures Valid()
      ensures records == MergedHistory(old(records), HistoryEpochs(visits, epochDuration))
      ensures syncSettings == old(syncSettings) && savedCurrentEpoch == old(savedCurrentEpoch)
    {
      var newEpochs := ComputeHistoryEpochs(visits, epochDuration);
      var existingData := records;
      var mergedData := MergeHistoryData(existingData, newEpochs);
      StrictlySortedUnique(existingData);
      MergedHistoryStrictlySorted(existingData, newEpochs);
      MergedHistoryTimestamps(existingData, newEpochs);
      PutAllCovering(existingData, mergedData);
      SaveActivityEpochs(mergedData);
    }

    /** deleteHistoryData; `deletedCount` is the number it logs. */
    method DeleteHistoryData() returns (deletedCount: nat)
      requires Valid()
      modifies this
      ensures Valid()
      ensures records == StripHistory(old(records))
      ensures deletedCount == |old(records)| - |records|
      ensures syncSettings == old(syncSettings) && savedCurrentEpoch == old(savedCurrentEpoch)
    {
      var allData := records;
      var cleanedData;
      cleanedData, deletedCount := StripHistoryData(allData);
      StripHistoryStrictlySorted(allData);
      PutAllCovering([], cleanedData);
      ClearAllData();
      SaveActivityEpochs(cleanedData);
    }

    method GetCurrentEpoch() returns (saved: Option<CurrentEpoch>)
      ensures saved == savedCurrentEpoch
    {
      saved := savedCurrentEpoch;
    }

    method SaveCurrentEpoch(epoch: CurrentEpoch)
      modifies this
      ensures savedCurrentEpoch == Some(epoch)
      ensures records == old(records) && syncSettings == old(syncSettings)
    {
      savedCurrentEpoch := Some(epoch);
    }
  }

  lemma StrictlySortedUnique(s: seq<Epoch>)
    requires StrictlySorted(s)
    ensures UniqueTimestamps(s)
  {
  }

  /**
   * Importing a store's own export in merge mode leaves the store as it was:
   * every imported record meets a stored one with the same timestamp and an
   * equal score, and equal scores keep the stored record.
   */
  lemma ExportMergeImportUnchanged(settings: Settings, records: seq<Epoch>, timeZone: string)
    requires StrictlySorted(records)
    ensures PutAll([], MergedActivity(records, ProcessImport(AsPayload(Exported(settings, records, timeZone))).value)) == records
  {
    var imported := ProcessImport(AsPayload(Exported(settings, records, timeZone))).value;
    MergedActivityDominated(records, imported);
    PutAllCovering([], records);
  }

  /**
   * A merge import whose records repeat a timestamp the store does not hold
   * keeps every copy in the merged listing; saving them one after the other
   * leaves the last copy of the import in the store.
   */
  lemma MergeImportKeepsLastDuplicate(existing: seq<Epoch>, imported: seq<Epoch>, t: int)
    requires t in Timestamps(imported) && t !in Timestamps(existing)
    ensures Lookup(PutAll([], MergedActivity(existing, imported)), t) == Some(imported[LastIndex(imported, t)])
  {
    var m := MergedActivity(existing, imported);
    MergedActivityTimestamps(existing, imported);
    assert t in Timestamps(m);
    MergedActivityWithTimestamp(existing, imported, t);
    SameLastWithTimestamp(m, imported, t);
    PutAllLookup([], m, t);
  }

  /** Replacing the store with a strictly sorted listing stores exactly that listing. */
  lemma ReplaceImportStoresListing(listing: seq<Epoch>)
    requires StrictlySorted(listing)
    ensures PutAll([], listing) == listing
  {
    PutAllCovering([], listing);
  }
}
