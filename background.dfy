/**
 * The background worker (background.js): the epoch being tracked, advanced
 * once per idle-state poll, finalised into a record when its duration has
 * elapsed, and the tracking flag. Clock readings and the idle oracle's answer
 * are parameters; timers and listeners are not modelled.
 */
module Background {
  import opened Options
  import opened Records
  import opened Merge
  import opened Storage

  /** The answer of `chrome.idle.queryState`. */
  datatype IdleState = Active | Idle | Locked

  /** Seconds credited to an active poll: the poll period. */
  const PollSeconds := 15

  // ---------------------------------------------------------------------------
  // One poll (background.js:113-124)

  /**
   * The epoch after one poll at `now`: the whole seconds elapsed since the
   * start, and on an active poll 15 more active seconds capped at that total.
   */
  function Polled(c: CurrentEpoch, state: IdleState, now: int): (r: CurrentEpoch)
    ensures 1000 * r.totalSeconds <= now - c.startTime < 1000 * r.totalSeconds + 1000
    ensures state == Active ==> r.activeSeconds == if c.activeSeconds + PollSeconds > r.totalSeconds then r.totalSeconds else c.activeSeconds + PollSeconds
    ensures state != Active ==> r.activeSeconds == c.activeSeconds
    ensures r.startTime == c.startTime && r.epochDuration == c.epochDuration
  {
    var total := (now - c.startTime) / 1000;
    var active := if state == Active then c.activeSeconds + PollSeconds else c.activeSeconds;
    c.(totalSeconds := total, activeSeconds := if state == Active && active > total then total else active)
  }

  /** The tracker's invariant: active time within the total, the total reached by a clock no later than `now`. */
  predicate Consistent(c: CurrentEpoch, now: int) {
    0 <= c.activeSeconds <= c.totalSeconds && 1000 * c.totalSeconds <= now - c.startTime
  }

  /** A poll at a clock reading no earlier than the last keeps the invariant. */
  lemma PollKeepsInvariant(c: CurrentEpoch, state: IdleState, now: int, later: int)
    requires Consistent(c, now) && now <= later
    ensures Consistent(Polled(c, state, later), later)
    ensures c.totalSeconds <= Polled(c, state, later).totalSeconds
    ensures c.activeSeconds <= Polled(c, state, later).activeSeconds <= c.activeSeconds + PollSeconds
  {
    var r := Polled(c, state, later);
    assert 1000 * c.totalSeconds < 1000 * r.totalSeconds + 1000;
  }

  /** A run of polls at non-decreasing clock readings, with no finalisation in between. */
  function PolledAll(c: CurrentEpoch, polls: seq<(IdleState, int)>): (r: CurrentEpoch)
    decreases |polls|
  {
    if polls == [] then c else PolledAll(Polled(c, polls[0].0, polls[0].1), polls[1..])
  }

  predicate Nondecreasing(now: int, polls: seq<(IdleState, int)>) {
    (forall i :: 0 <= i < |polls| ==> now <= polls[i].1) &&
    (forall i, j :: 0 <= i < j < |polls| ==> polls[i].1 <= polls[j].1)
  }

  /** The invariant holds after any run of polls, and each active poll adds at most 15 active seconds. */
  lemma {:induction false} PollsKeepInvariant(c: CurrentEpoch, now: int, polls: seq<(IdleState, int)>)
    requires Consistent(c, now) && Nondecreasing(now, polls)
    ensures Consistent(PolledAll(c, polls), if polls == [] then now else polls[|polls| - 1].1)
    ensures PolledAll(c, polls).activeSeconds <= c.activeSeconds + PollSeconds * |polls|
    decreases |polls|
  {
    if polls != [] {
      var next := Polled(c, polls[0].0, polls[0].1);
      PollKeepsInvariant(c, polls[0].0, now, polls[0].1);
      PollsKeepInvariant(next, polls[0].1, polls[1..]);
    }
  }

  /** `now - startTime >= epochDuration * 60 * 1000`; an absent duration gives NaN and never elapses. */
  predicate EpochElapsed(c: CurrentEpoch, now: int) {
    c.epochDuration.Some? && now - c.startTime >= c.epochDuration.value * 60 * 1000
  }

  // ---------------------------------------------------------------------------
  // finalizeEpoch (background.js:151-176)

  lemma {:induction false} MulMono(x: int, y: int, k: int)
    requires k >= 0
    ensures x <= y ==> x * k <= y * k
    decreases if x < y then y - x else 0
  {
    if x < y {
      MulMono(x + 1, y, k);
      assert (x + 1) * k == x * k + k;
    }
  }

  /** The rounded quotient lies in 0..100 when the active time is within the total. */
  lemma ScoreBounds(active: int, total: int)
    requires total > 0
    ensures var r := (200 * active + total) / (2 * total);
      0 <= active <= total ==> 0 <= r <= 100
  {
    var k := 2 * total;
    var r := (200 * active + total) / k;
    assert k * r <= 200 * active + total < k * r + k;
    MulMono(r, -1, k);
    MulMono(101, r, k);
  }

  /**
   * `Math.round(active / total * 100)` on exact values: the integer nearest
   * to 100 * active / total, halves rounded up; 0 for an empty epoch.
   */
  function ActivityScore(active: int, total: int): (r: int)
    ensures total > 0 ==> 2 * total * r <= 200 * active + total < 2 * total * r + 2 * total
    ensures total <= 0 ==> r == 0
    ensures 0 <= active <= total ==> 0 <= r <= 100
  {
    if total > 0 then
      ScoreBounds(active, total);
      (200 * active + total) / (2 * total)
    else 0
  }

  /** A fully active epoch scores 100 and an idle one 0. */
  lemma ActivityScoreExtremes(total: int)
    requires total > 0
    ensures ActivityScore(total, total) == 100
    ensures ActivityScore(0, total) == 0
  {
    var k := 2 * total;
    var r := ActivityScore(total, total);
    MulMono(r, 99, k);
    MulMono(101, r, k);
    var z := ActivityScore(0, total);
    MulMono(z, -1, k);
    MulMono(1, z, k);
  }

  /** The record finalizeEpoch saves: start time, score and duration, with no trackerScore. */
  function FinalizedRecord(c: CurrentEpoch): (r: Epoch)
    requires c.epochDuration.Some?
    ensures r.timestamp == c.startTime
    ensures r.activityScore == ActivityScore(c.activeSeconds, c.totalSeconds)
    ensures r.trackerScore.None? && r.historyScore.None?
    ensures 0 <= c.activeSeconds <= c.totalSeconds ==> 0 <= r.activityScore <= 100
  {
    Epoch(c.startTime, ActivityScore(c.activeSeconds, c.totalSeconds), c.epochDuration.value as real, None, None)
  }

  /** Saving a finalised record keeps its score: with no tracker or history score nothing is recomputed. */
  lemma FinalizedRecordNotRescored(c: CurrentEpoch)
    requires c.epochDuration.Some?
    ensures Rescored(FinalizedRecord(c)) == FinalizedRecord(c)
  {
  }

  /**
   * A finalised epoch that a later history import covers takes the history
   * score even when that is lower, and deleting the history then drops it.
   */
  lemma FinalizedEpochLostToHistory(c: CurrentEpoch, historyScore: int)
    requires c.epochDuration.Some? && c.startTime != 0
    ensures var e := FinalizedRecord(c);
      var h := [HistoryEpoch(c.startTime, historyScore, c.epochDuration.value as real)];
      && (forall x :: x in MergedHistory([e], h) ==> x.activityScore == Max(0, historyScore))
      && c.startTime !in Timestamps(StripHistory(MergedHistory([e], h)))
  {
    var e := FinalizedRecord(c);
    var h := [HistoryEpoch(c.startTime, historyScore, c.epochDuration.value as real)];
    assert e in [e];
    forall x | x in MergedHistory([e], h) ensures x.activityScore == Max(0, historyScore) {
      MergedHistoryTimestamps([e], h);
      TimestampsCons(e, []);
      assert h[0] in h;
      MergedHistoryAt([e], h, e, x);
      assert h[..0] == [];
    }
    assert h[0] in h;
    HistoryRemovalDropsUntracked([e], h, e);
  }

  // ---------------------------------------------------------------------------
  // The worker

  class Tracker {
    var startTime: int
    var activeSeconds: int
    var totalSeconds: int
    var epochDuration: Option<int>
    var isTracking: bool
    const storage: StorageManager

    function Current(): (r: CurrentEpoch)
      reads this
    {
      CurrentEpoch(startTime, activeSeconds, totalSeconds, epochDuration)
    }

    ghost predicate Valid()
      reads this, storage
    {
      storage.Valid()
    }

    /** The module-level state when the script loads: no start time yet, 15-minute epochs, not tracking. */
    constructor (storage: StorageManager)
      requires storage.Valid()
      ensures Valid() && this.storage == storage
      ensures Current() == CurrentEpoch(0, 0, 0, Some(15)) && !isTracking
    {
      this.storage := storage;
      startTime, activeSeconds, totalSeconds := 0, 0, 0;
      epochDuration := Some(15);
      isTracking := false;
    }

    method SetCurrent(c: CurrentEpoch)
      modifies this
      ensures Current() == c && isTracking == old(isTracking)
    {
      startTime, activeSeconds, totalSeconds, epochDuration := c.startTime, c.activeSeconds, c.totalSeconds, c.epochDuration;
    }

    /** startNewEpoch: a fresh epoch from `now` that keeps the duration. */
    method StartNewEpoch(now: int)
      modifies this
      ensures Current() == CurrentEpoch(now, 0, 0, old(epochDuration))
      ensures Consistent(Current(), now)
      ensures isTracking == old(isTracking)
    {
      startTime, activeSeconds, totalSeconds := now, 0, 0;
    }

    /** startTracking; a second call changes nothing. */
    method StartTracking()
      modifies this
      ensures isTracking && Current() == old(Current())
    {
      if isTracking {
        return;
      }
      isTracking := true;
    }

    /** stopTracking; a second call changes nothing. */
    method StopTracking()
      modifies this
      ensures !isTracking && Current() == old(Current())
    {
      if !isTracking {
        return;
      }
      isTracking := false;
    }

    /**
     * finalizeEpoch: the record for the current epoch is saved, then a new
     * epoch started at `now` is saved as the current one. Reached only from
     * checkIdleState once the duration has elapsed, so a duration is set.
     */
    method FinalizeEpoch(now: int)
      requires Valid() && epochDuration.Some?
      modifies this, storage
      ensures Valid()
      ensures storage.records == AfterSave(old(storage.records), FinalizedRecord(old(Current())))
      ensures Current() == CurrentEpoch(now, 0, 0, old(epochDuration))
      ensures storage.savedCurrentEpoch == Some(Current())
      ensures storage.syncSettings == old(storage.syncSettings) && isTracking == old(isTracking)
    {
      var score := if totalSeconds > 0 then ActivityScore(activeSeconds, totalSeconds) else 0;
      var epoch := Epoch(startTime, score, epochDuration.value as real, None, None);
      storage.SaveActivityEpoch(epoch);
      StartNewEpoch(now);
      storage.SaveCurrentEpoch(Current());
    }

    /**
     * checkIdleState: one poll at `now` with the oracle's answer `state`; once
     * the duration has elapsed the epoch is finalised and the next one starts
     * at `restartAt` (the clock read by startNewEpoch), otherwise the polled
     * epoch is saved as the current one.
     */
    method CheckIdleState(state: IdleState, now: int, restartAt: int)
      requires Valid()
      modifies this, storage
      ensures Valid()
      ensures var polled := Polled(old(Current()), state, now);
        if EpochElapsed(polled, now) then
          && storage.records == AfterSave(old(storage.records), FinalizedRecord(polled))
          && Current() == CurrentEpoch(restartAt, 0, 0, old(epochDuration))
          && storage.savedCurrentEpoch == Some(Current())
        else
          && storage.records == old(storage.records)
          && Current() == polled
          && storage.savedCurrentEpoch == Some(polled)
      ensures storage.syncSettings == old(storage.syncSettings) && isTracking == old(isTracking)
    {
      var elapsedSeconds := (now - startTime) / 1000;
      totalSeconds := elapsedSeconds;
      if state == Active {
        activeSeconds := activeSeconds + PollSeconds;
        if activeSeconds > totalSeconds {
          activeSeconds := totalSeconds;
        }
      }
      ghost var polled := Polled(old(Current()), state, now);
      assert Current() == polled;
      if epochDuration.Some? && now - startTime >= epochDuration.value * 60 * 1000 {
        assert EpochElapsed(polled, now);
        FinalizeEpoch(restartAt);
      } else {
        assert !EpochElapsed(polled, now);
        storage.SaveCurrentEpoch(Current());
      }
    }

    /**
     * The restore-or-new part of initialize: the settings' duration is taken,
     * then a saved epoch, if any, replaces the whole current epoch (its own
     * duration included); otherwise a new epoch starts at `now`. Tracking is
     * switched on either way.
     */
    method Initialize(now: int)
      requires Valid()
      modifies this, storage
      ensures Valid() && isTracking
      ensures storage.syncSettings == MigratedSettings(old(storage.syncSettings))
      ensures storage.records == old(storage.records) && storage.savedCurrentEpoch == old(storage.savedCurrentEpoch)
      ensures old(storage.savedCurrentEpoch).Some? ==> Current() == old(storage.savedCurrentEpoch).value
      ensures old(storage.savedCurrentEpoch).None? ==>
        Current() == CurrentEpoch(now, 0, 0, EffectiveSettings(MigratedSettings(old(storage.syncSettings))).epochDuration)
    {
      storage.Initialize();
      var settings := storage.GetSettings();
      epochDuration := settings.epochDuration;
      var savedEpoch := storage.GetCurrentEpoch();
      if savedEpoch.Some? {
        SetCurrent(savedEpoch.value);
      } else {
        StartNewEpoch(now);
      }
      StartTracking();
    }

    /** The alarm listener: `saveEpoch` saves the current epoch, `cleanup` runs the retention guard, anything else is ignored. */
    method OnAlarm(name: string) returns (cleanup: Option<CleanupDecision>)
      requires Valid()
      modifies storage
      ensures Valid()
      ensures name == "saveEpoch" ==> storage.savedCurrentEpoch == Some(Current()) && cleanup.None?
      ensures name == "cleanup" ==>
        cleanup == Some(CleanupDecisionFor(EffectiveSettings(storage.syncSettings))) &&
        storage.savedCurrentEpoch == old(storage.savedCurrentEpoch)
      ensures name != "saveEpoch" && name != "cleanup" ==>
        cleanup.None? && storage.savedCurrentEpoch == old(storage.savedCurrentEpoch)
      ensures storage.records == old(storage.records) && storage.syncSettings == old(storage.syncSettings)
    {
      cleanup := None;
      if name == "saveEpoch" {
        storage.SaveCurrentEpoch(Current());
      } else if name == "cleanup" {
        var decision := storage.CleanupOldData();
        cleanup := Some(decision);
      }
    }
  }
}
