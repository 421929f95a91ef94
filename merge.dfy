/**
 * The record transformations of the storage manager: the bulk-import merge
 * (`_mergeActivityData`), the history merge (`_mergeHistoryData`) and the
 * history removal loop of `deleteHistoryData`.
 *
 * Each loop is a method proved equal to a specification function that folds
 * over its input the way the loop does; the lemmas below state what the
 * merged listing contains.
 */
module Merge {
  import opened Options
  import opened Records

  // ---------------------------------------------------------------------------
  // Positional helpers

  /** `findIndex(e => e.timestamp === t)`: the first index holding timestamp `t`. */
  function FirstIndex(s: seq<Epoch>, t: int): (i: nat)
    requires t in Timestamps(s)
    ensures i < |s| && s[i].timestamp == t
    ensures forall j :: 0 <= j < i ==> s[j].timestamp != t
  {
    if s[0].timestamp == t then 0
    else
      assert s == [s[0]] + s[1..];
      TimestampsCons(s[0], s[1..]);
      1 + FirstIndex(s[1..], t)
  }

  /** A sequence whose first records carry the timestamps of `existing`, in order, finds them where `existing` does. */
  lemma FirstIndexOfPrefix(existing: seq<Epoch>, m: seq<Epoch>, t: int)
    requires t in Timestamps(existing) && |m| >= |existing|
    requires forall i :: 0 <= i < |existing| ==> m[i].timestamp == existing[i].timestamp
    ensures t in Timestamps(m) && FirstIndex(m, t) == FirstIndex(existing, t)
  {
    var k := FirstIndex(existing, t);
    TimestampOf(m, k);
    var i := FirstIndex(m, t);
    assert i <= k;
    assert existing[i].timestamp == t;
  }

  lemma UniqueIndex(s: seq<Epoch>, i: int, j: int)
    requires UniqueTimestamps(s) && 0 <= i < |s| && 0 <= j < |s|
    requires s[i].timestamp == s[j].timestamp
    ensures i == j
  {
  }

  lemma TimestampsConcat(a: seq<Epoch>, b: seq<Epoch>)
    ensures Timestamps(a + b) == Timestamps(a) + Timestamps(b)
  {
    forall t | t in Timestamps(a + b) ensures t in Timestamps(a) + Timestamps(b) {
      var x :| x in a + b && x.timestamp == t;
      if x in a {} else { assert x in b; }
    }
  }

  lemma TimestampsPositional(a: seq<Epoch>, b: seq<Epoch>)
    requires |a| == |b|
    requires forall i :: 0 <= i < |a| ==> a[i].timestamp == b[i].timestamp
    ensures Timestamps(a) == Timestamps(b)
  {
    forall t | t in Timestamps(a) ensures t in Timestamps(b) {
      var x :| x in a && x.timestamp == t;
      var k :| 0 <= k < |a| && a[k] == x;
      TimestampOf(b, k);
    }
    forall t | t in Timestamps(b) ensures t in Timestamps(a) {
      var x :| x in b && x.timestamp == t;
      var k :| 0 <= k < |b| && b[k] == x;
      TimestampOf(a, k);
    }
  }

  /** A member of `m` that is not in its suffix from `n` on sits before `n`. */
  lemma InPrefix(m: seq<Epoch>, n: int, x: Epoch) returns (p: int)
    requires 0 <= n <= |m| && x in m && x !in m[n..]
    ensures 0 <= p < n && m[p] == x
  {
    assert m == m[..n] + m[n..];
    assert x in m[..n];
    p :| 0 <= p < n && m[..n][p] == x;
  }

  lemma InSortedIffIn(s: seq<Epoch>, x: Epoch)
    ensures x in SortByTimestamp(s) <==> x in s
  {
    assert multiset(SortByTimestamp(s)) == multiset(s);
    assert x in SortByTimestamp(s) <==> x in multiset(SortByTimestamp(s));
  }

  // ---------------------------------------------------------------------------
  // _mergeActivityData (storage-manager.js:448-469)

  /**
   * What the slot of an existing record `cur` holds once the imported records
   * have gone by: an imported record with the same timestamp takes the slot
   * only when its activityScore is strictly greater than the slot's.
   */
  function Champion(cur: Epoch, imported: seq<Epoch>): (r: Epoch)
    ensures r.timestamp == cur.timestamp
    ensures r == cur || r in imported
    ensures r != cur ==> r.activityScore > cur.activityScore
    ensures r.activityScore >= cur.activityScore
    ensures forall e :: e in imported && e.timestamp == cur.timestamp ==> e.activityScore <= r.activityScore
  {
    if imported == [] then cur
    else
      var pre := imported[..|imported| - 1];
      var e := imported[|imported| - 1];
      assert imported == pre + [e];
      var c := Champion(cur, pre);
      if e.timestamp == c.timestamp && e.activityScore > c.activityScore then e else c
  }

  /** The slot keeps its record exactly when no imported record with its timestamp scores strictly higher. */
  lemma ChampionKeeps(cur: Epoch, imported: seq<Epoch>)
    ensures Champion(cur, imported) == cur <==>
      forall e :: e in imported && e.timestamp == cur.timestamp ==> e.activityScore <= cur.activityScore
  {
  }

  /** Imported records whose timestamp is not among the existing ones, in import order. */
  function NewRecords(existing: seq<Epoch>, imported: seq<Epoch>): (r: seq<Epoch>)
    ensures forall e :: e in r <==> e in imported && e.timestamp !in Timestamps(existing)
  {
    if imported == [] then []
    else
      var pre := imported[..|imported| - 1];
      var e := imported[|imported| - 1];
      assert imported == pre + [e];
      if e.timestamp !in Timestamps(existing) then NewRecords(existing, pre) + [e]
      else NewRecords(existing, pre)
  }

  /** The `merged` array of `_mergeActivityData` before it is sorted. */
  function MergeActivityFold(existing: seq<Epoch>, imported: seq<Epoch>): (m: seq<Epoch>)
    ensures |m| >= |existing|
    ensures forall i :: 0 <= i < |existing| ==> m[i].timestamp == existing[i].timestamp
    decreases |imported|
  {
    if imported == [] then existing
    else
      var m := MergeActivityFold(existing, imported[..|imported| - 1]);
      var e := imported[|imported| - 1];
      if e.timestamp !in Timestamps(existing) then m + [e]
      else
        FirstIndexOfPrefix(existing, m, e.timestamp);
        var i := FirstIndex(m, e.timestamp);
        if e.activityScore > m[i].activityScore then m[i := e] else m
  }

  /** The result of `_mergeActivityData(existing, imported)`. */
  function MergedActivity(existing: seq<Epoch>, imported: seq<Epoch>): (r: seq<Epoch>) {
    SortByTimestamp(MergeActivityFold(existing, imported))
  }

  method MergeActivityData(existing: seq<Epoch>, imported: seq<Epoch>) returns (merged: seq<Epoch>)
    ensures merged == MergedActivity(existing, imported)
  {
    merged := existing;
    var existingTimestamps := Timestamps(existing);
    var k := 0;
    while k < |imported|
      invariant 0 <= k <= |imported|
      invariant merged == MergeActivityFold(existing, imported[..k])
    {
      var epoch := imported[k];
      assert imported[..k + 1][..k] == imported[..k];
      if epoch.timestamp !in existingTimestamps {
        merged := merged + [epoch];
      } else {
        FirstIndexOfPrefix(existing, merged, epoch.timestamp);
        var existingIndex := FirstIndex(merged, epoch.timestamp);
        if epoch.activityScore > merged[existingIndex].activityScore {
          merged := merged[existingIndex := epoch];
        }
      }
      k := k + 1;
    }
    assert imported[..k] == imported;
    merged := SortByTimestamp(merged);
  }

  /** The slot of `existing[i]` after the merge: the first record of a timestamp takes part, later duplicates do not. */
  function ActivitySlot(existing: seq<Epoch>, imported: seq<Epoch>, i: int): (r: Epoch)
    requires 0 <= i < |existing|
  {
    TimestampOf(existing, i);
    if FirstIndex(existing, existing[i].timestamp) == i then Champion(existing[i], imported) else existing[i]
  }

  /** How one more imported record changes a slot. */
  lemma ActivitySlotStep(existing: seq<Epoch>, imported: seq<Epoch>, i: int)
    requires imported != [] && 0 <= i < |existing|
    ensures var e := imported[|imported| - 1];
      var c := ActivitySlot(existing, imported[..|imported| - 1], i);
      ActivitySlot(existing, imported, i) ==
        if e.timestamp in Timestamps(existing) && i == FirstIndex(existing, e.timestamp) && e.activityScore > c.activityScore
        then e else c
  {
    TimestampOf(existing, i);
  }

  /** The unsorted merge holds the existing slots, then the new records. */
  predicate ActivityShape(existing: seq<Epoch>, imported: seq<Epoch>, m: seq<Epoch>) {
    && |m| == |existing| + |NewRecords(existing, imported)|
    && (forall i :: 0 <= i < |existing| ==> m[i] == ActivitySlot(existing, imported, i))
    && m[|existing|..] == NewRecords(existing, imported)
  }

  lemma {:induction false} MergeActivityFoldShape(existing: seq<Epoch>, imported: seq<Epoch>)
    ensures ActivityShape(existing, imported, MergeActivityFold(existing, imported))
    decreases |imported|
  {
    if imported != [] {
      var pre := imported[..|imported| - 1];
      MergeActivityFoldShape(existing, pre);
      if imported[|imported| - 1].timestamp !in Timestamps(existing) {
        ActivityStepNew(existing, imported);
      } else {
        ActivityStepExisting(existing, imported);
      }
    }
  }

  lemma SliceAppend(m: seq<Epoch>, n: int, e: Epoch)
    requires 0 <= n <= |m|
    ensures (m + [e])[n..] == m[n..] + [e]
  {
  }

  lemma ActivityStepNew(existing: seq<Epoch>, imported: seq<Epoch>)
    requires imported != [] && imported[|imported| - 1].timestamp !in Timestamps(existing)
    requires ActivityShape(existing, imported[..|imported| - 1], MergeActivityFold(existing, imported[..|imported| - 1]))
    ensures |MergeActivityFold(existing, imported)| == |existing| + |NewRecords(existing, imported)|
    ensures forall i :: 0 <= i < |existing| ==> MergeActivityFold(existing, imported)[i] == ActivitySlot(existing, imported, i)
    ensures MergeActivityFold(existing, imported)[|existing|..] == NewRecords(existing, imported)
  {
    var e := imported[|imported| - 1];
    var m := MergeActivityFold(existing, imported[..|imported| - 1]);
    var m' := MergeActivityFold(existing, imported);
    assert NewRecords(existing, imported) == NewRecords(existing, imported[..|imported| - 1]) + [e];
    assert m' == m + [e];
    forall i | 0 <= i < |existing| ensures m'[i] == ActivitySlot(existing, imported, i) {
      assert m'[i] == m[i];
      ActivitySlotStep(existing, imported, i);
    }
    SliceAppend(m, |existing|, e);
  }

  lemma ActivityStepExisting(existing: seq<Epoch>, imported: seq<Epoch>)
    requires imported != [] && imported[|imported| - 1].timestamp in Timestamps(existing)
    requires ActivityShape(existing, imported[..|imported| - 1], MergeActivityFold(existing, imported[..|imported| - 1]))
    ensures |MergeActivityFold(existing, imported)| == |existing| + |NewRecords(existing, imported)|
    ensures forall i :: 0 <= i < |existing| ==> MergeActivityFold(existing, imported)[i] == ActivitySlot(existing, imported, i)
    ensures MergeActivityFold(existing, imported)[|existing|..] == NewRecords(existing, imported)
  {
    var e := imported[|imported| - 1];
    var m := MergeActivityFold(existing, imported[..|imported| - 1]);
    var m' := MergeActivityFold(existing, imported);
    assert NewRecords(existing, imported) == NewRecords(existing, imported[..|imported| - 1]);
    FirstIndexOfPrefix(existing, m, e.timestamp);
    forall i | 0 <= i < |existing| ensures m'[i] == ActivitySlot(existing, imported, i) {
      ActivitySlotStep(existing, imported, i);
    }
    assert m'[|existing|..] == m[|existing|..];
  }

  /** Every existing and every imported timestamp is present after the merge, and no other. */
  lemma MergedActivityTimestamps(existing: seq<Epoch>, imported: seq<Epoch>)
    ensures Timestamps(MergedActivity(existing, imported)) == Timestamps(existing) + Timestamps(imported)
  {
    var m := MergeActivityFold(existing, imported);
    MergeActivityFoldShape(existing, imported);
    MultisetTimestamps(MergedActivity(existing, imported), m);
    assert m == m[..|existing|] + m[|existing|..];
    TimestampsConcat(m[..|existing|], m[|existing|..]);
    TimestampsPositional(m[..|existing|], existing);
    var nr := NewRecords(existing, imported);
    forall t | t in Timestamps(imported) ensures t in Timestamps(existing) + Timestamps(nr) {
      var x :| x in imported && x.timestamp == t;
      if t !in Timestamps(existing) { assert x in nr; }
    }
  }

  /** An imported record whose timestamp is not stored yet is added (duplicates among them included). */
  lemma MergedActivityAdds(existing: seq<Epoch>, imported: seq<Epoch>, e: Epoch)
    requires e in imported && e.timestamp !in Timestamps(existing)
    ensures e in MergedActivity(existing, imported)
  {
    var m := MergeActivityFold(existing, imported);
    MergeActivityFoldShape(existing, imported);
    assert e in m[|existing|..];
    InSortedIffIn(m, e);
  }

  /**
   * With a store whose timestamps are unique, the record found at an existing
   * record's timestamp after the merge is that record's champion: it is
   * replaced only by an imported record with a strictly greater activityScore.
   */
  lemma MergedActivityAt(existing: seq<Epoch>, imported: seq<Epoch>, e: Epoch, x: Epoch)
    requires UniqueTimestamps(existing) && e in existing
    requires x in MergedActivity(existing, imported) && x.timestamp == e.timestamp
    ensures x == Champion(e, imported)
  {
    var m := MergeActivityFold(existing, imported);
    MergeActivityFoldShape(existing, imported);
    InSortedIffIn(m, x);
    var q :| 0 <= q < |existing| && existing[q] == e;
    TimestampOf(existing, q);
    assert x !in NewRecords(existing, imported);
    var p := InPrefix(m, |existing|, x);
    assert m[p] == ActivitySlot(existing, imported, p);
    UniqueIndex(existing, p, q);
    UniqueIndex(existing, FirstIndex(existing, e.timestamp), p);
  }

  /** Importing records that match the store timestamp for timestamp with no higher score changes nothing. */
  lemma MergedActivityDominated(existing: seq<Epoch>, imported: seq<Epoch>)
    requires StrictlySorted(existing) && |imported| == |existing|
    requires forall i :: 0 <= i < |existing| ==>
      imported[i].timestamp == existing[i].timestamp && imported[i].activityScore <= existing[i].activityScore
    ensures MergedActivity(existing, imported) == existing
  {
    var m := MergeActivityFold(existing, imported);
    MergeActivityFoldShape(existing, imported);
    forall e | e in imported ensures e.timestamp in Timestamps(existing) {
      var i :| 0 <= i < |imported| && imported[i] == e;
      TimestampOf(existing, i);
    }
    NoNewRecords(existing, imported);
    forall i | 0 <= i < |existing| ensures m[i] == existing[i] {
      DominatedSlot(existing, imported, i);
    }
    assert m == existing;
    SortedIsFixpoint(existing);
  }

  lemma NoNewRecords(existing: seq<Epoch>, imported: seq<Epoch>)
    requires forall e :: e in imported ==> e.timestamp in Timestamps(existing)
    ensures NewRecords(existing, imported) == []
  {
    if imported != [] {
      var pre := imported[..|imported| - 1];
      assert imported == pre + [imported[|imported| - 1]];
      NoNewRecords(existing, pre);
    }
  }

  lemma DominatedSlot(existing: seq<Epoch>, imported: seq<Epoch>, i: int)
    requires StrictlySorted(existing) && |imported| == |existing| && 0 <= i < |existing|
    requires forall i :: 0 <= i < |existing| ==>
      imported[i].timestamp == existing[i].timestamp && imported[i].activityScore <= existing[i].activityScore
    ensures ActivitySlot(existing, imported, i) == existing[i]
  {
    TimestampOf(existing, i);
    UniqueIndex(existing, FirstIndex(existing, existing[i].timestamp), i);
    forall e | e in imported && e.timestamp == existing[i].timestamp
      ensures e.activityScore <= existing[i].activityScore
    {
      var j :| 0 <= j < |imported| && imported[j] == e;
      UniqueIndex(existing, i, j);
    }
    ChampionKeeps(existing[i], imported);
  }

  /** Merging a store's listing with itself changes nothing (equal scores keep the existing record). */
  lemma MergedActivitySelf(d: seq<Epoch>)
    requires StrictlySorted(d)
    ensures MergedActivity(d, d) == d
  {
    MergedActivityDominated(d, d);
  }

  /** The merged listing is sorted by ascending timestamp (the final stable sort). */
  lemma MergedActivitySorted(existing: seq<Epoch>, imported: seq<Epoch>)
    ensures Sorted(MergedActivity(existing, imported))
  {
    SortByTimestampSorted(MergeActivityFold(existing, imported));
  }

  /** The merge keeps one record per existing slot and adds one record per new imported record. */
  lemma MergedActivityLength(existing: seq<Epoch>, imported: seq<Epoch>)
    ensures |MergedActivity(existing, imported)| == |existing| + |NewRecords(existing, imported)|
  {
    MergeActivityFoldShape(existing, imported);
    var m := MergeActivityFold(existing, imported);
    assert |multiset(SortByTimestamp(m))| == |multiset(m)|;
  }

  /** Records with a timestamp the store does not hold are appended exactly as imported, in import order. */
  lemma {:induction false} NewRecordsWithTimestamp(existing: seq<Epoch>, imported: seq<Epoch>, t: int)
    requires t !in Timestamps(existing)
    ensures WithTimestamp(NewRecords(existing, imported), t) == WithTimestamp(imported, t)
    decreases |imported|
  {
    if imported != [] {
      var pre := imported[..|imported| - 1];
      var e := imported[|imported| - 1];
      assert imported == pre + [e];
      assert [e][1..] == [];
      NewRecordsWithTimestamp(existing, pre, t);
      WithTimestampConcat(pre, [e], t);
      if e.timestamp !in Timestamps(existing) {
        WithTimestampConcat(NewRecords(existing, pre), [e], t);
      }
    }
  }

  /**
   * For a timestamp the store does not hold, the merged listing carries every
   * imported record with that timestamp, in import order: the timestamp set
   * is built from the store only, and the final sort is stable.
   */
  lemma MergedActivityWithTimestamp(existing: seq<Epoch>, imported: seq<Epoch>, t: int)
    requires t !in Timestamps(existing)
    ensures WithTimestamp(MergedActivity(existing, imported), t) == WithTimestamp(imported, t)
  {
    var m := MergeActivityFold(existing, imported);
    MergeActivityFoldShape(existing, imported);
    var n := |existing|;
    assert m == m[..n] + m[n..];
    WithTimestampConcat(m[..n], m[n..], t);
    forall i | 0 <= i < n ensures m[..n][i].timestamp != t {
      TimestampOf(existing, i);
    }
    NoneWithTimestamp(m[..n], t);
    NewRecordsWithTimestamp(existing, imported, t);
    SortByTimestampStable(m, t);
  }

  /** The timestamp set is built from `existing` only, so two imported records sharing a new timestamp are both added. */
  lemma MergedActivityKeepsImportedDuplicates(a: Epoch, b: Epoch)
    requires a.timestamp == b.timestamp && a != b
    ensures |MergedActivity([], [a, b])| == 2
    ensures a in MergedActivity([], [a, b]) && b in MergedActivity([], [a, b])
  {
    MergedActivityAdds([], [a, b], a);
    MergedActivityAdds([], [a, b], b);
    MergedActivityLength([], [a, b]);
    assert [a, b][..1] == [a];
    assert NewRecords([], [a]) == [a];
  }

  // ---------------------------------------------------------------------------
  // _mergeHistoryData (storage-manager.js:414-442)

  /** A history epoch `{timestamp, historyScore, epochDuration}` built by importHistoryData. */
  datatype HistoryEpoch = HistoryEpoch(timestamp: int, historyScore: int, epochDuration: real)

  function HistoryTimestamps(h: seq<HistoryEpoch>): (r: set<int>) {
    set x | x in h :: x.timestamp
  }

  predicate UniqueHistoryTimestamps(h: seq<HistoryEpoch>) {
    forall i, j :: 0 <= i < j < |h| ==> h[i].timestamp != h[j].timestamp
  }

  /** A history epoch with a new timestamp is stored with activityScore = historyScore. */
  function FromHistory(h: HistoryEpoch): (r: Epoch) {
    Epoch(h.timestamp, h.historyScore, h.epochDuration, None, Some(h.historyScore))
  }

  /** An existing record after a history score is folded into it. */
  function WithHistory(e: Epoch, score: int): (r: Epoch) {
    e.(historyScore := Some(score), activityScore := Max(OrZero(e.trackerScore), score))
  }

  /** The score of the last history epoch with timestamp `t`, the one that survives repeated updates. */
  function LastHistory(h: seq<HistoryEpoch>, t: int): (r: Option<int>)
    ensures r.None? <==> t !in HistoryTimestamps(h)
    ensures r.Some? ==> exists x :: x in h && x.timestamp == t && x.historyScore == r.value
  {
    if h == [] then None
    else
      var pre := h[..|h| - 1];
      var x := h[|h| - 1];
      assert h == pre + [x];
      if x.timestamp == t then Some(x.historyScore) else LastHistory(pre, t)
  }

  /** History epochs whose timestamp is not stored yet, as the records they become, in order. */
  function NewHistory(existing: seq<Epoch>, h: seq<HistoryEpoch>): (r: seq<Epoch>)
    ensures forall x :: x in r ==> x.timestamp !in Timestamps(existing)
    ensures forall x :: x in r ==> exists y :: y in h && x == FromHistory(y)
  {
    if h == [] then []
    else
      var pre := h[..|h| - 1];
      var y := h[|h| - 1];
      assert h == pre + [y];
      if y.timestamp !in Timestamps(existing) then NewHistory(existing, pre) + [FromHistory(y)]
      else NewHistory(existing, pre)
  }

  /** The `merged` array of `_mergeHistoryData` before it is sorted. */
  function HistoryFold(existing: seq<Epoch>, h: seq<HistoryEpoch>): (m: seq<Epoch>)
    ensures |m| >= |existing|
    ensures forall i :: 0 <= i < |existing| ==> m[i].timestamp == existing[i].timestamp
    decreases |h|
  {
    if h == [] then existing
    else
      var m := HistoryFold(existing, h[..|h| - 1]);
      var x := h[|h| - 1];
      if x.timestamp in Timestamps(existing) then
        var i := LastIndex(existing, x.timestamp);
        m[i := WithHistory(m[i], x.historyScore)]
      else m + [FromHistory(x)]
  }

  /** The result of `_mergeHistoryData(existing, h)`. */
  function MergedHistory(existing: seq<Epoch>, h: seq<HistoryEpoch>): (r: seq<Epoch>) {
    SortByTimestamp(HistoryFold(existing, h))
  }

  method MergeHistoryData(existing: seq<Epoch>, historyEpochs: seq<HistoryEpoch>) returns (merged: seq<Epoch>)
    ensures merged == MergedHistory(existing, historyEpochs)
  {
    merged := existing;
    var existingTimestamps := Timestamps(existing);
    var k := 0;
    while k < |historyEpochs|
      invariant 0 <= k <= |historyEpochs|
      invariant merged == HistoryFold(existing, historyEpochs[..k])
    {
      var hEpoch := historyEpochs[k];
      assert historyEpochs[..k + 1][..k] == historyEpochs[..k];
      if hEpoch.timestamp in existingTimestamps {
        // the object the timestamp map points at is the last existing record with that timestamp
        var i := LastIndex(existing, hEpoch.timestamp);
        merged := merged[i := WithHistory(merged[i], hEpoch.historyScore)];
      } else {
        merged := merged + [FromHistory(hEpoch)];
      }
      k := k + 1;
    }
    assert historyEpochs[..k] == historyEpochs;
    merged := SortByTimestamp(merged);
  }

  /** The slot of `existing[i]` after the history merge. */
  function HistorySlot(existing: seq<Epoch>, h: seq<HistoryEpoch>, i: int): (r: Epoch)
    requires 0 <= i < |existing|
  {
    TimestampOf(existing, i);
    var t := existing[i].timestamp;
    if LastIndex(existing, t) == i && LastHistory(h, t).Some? then WithHistory(existing[i], LastHistory(h, t).value)
    else existing[i]
  }

  /** How one more history epoch changes a slot. */
  lemma HistorySlotStep(existing: seq<Epoch>, h: seq<HistoryEpoch>, i: int)
    requires h != [] && 0 <= i < |existing|
    ensures var x := h[|h| - 1];
      var c := HistorySlot(existing, h[..|h| - 1], i);
      HistorySlot(existing, h, i) ==
        if x.timestamp in Timestamps(existing) && i == LastIndex(existing, x.timestamp)
        then WithHistory(c, x.historyScore) else c
  {
    TimestampOf(existing, i);
  }

  /** The unsorted history merge holds the existing slots, then the new history records. */
  predicate HistoryShape(existing: seq<Epoch>, h: seq<HistoryEpoch>, m: seq<Epoch>) {
    && |m| == |existing| + |NewHistory(existing, h)|
    && (forall i :: 0 <= i < |existing| ==> m[i] == HistorySlot(existing, h, i))
    && m[|existing|..] == NewHistory(existing, h)
  }

  lemma {:induction false} HistoryFoldShape(existing: seq<Epoch>, h: seq<HistoryEpoch>)
    ensures HistoryShape(existing, h, HistoryFold(existing, h))
    decreases |h|
  {
    if h != [] {
      HistoryFoldShape(existing, h[..|h| - 1]);
      if h[|h| - 1].timestamp in Timestamps(existing) {
        HistoryStepExisting(existing, h);
      } else {
        HistoryStepNew(existing, h);
      }
    }
  }

  lemma HistoryStepExisting(existing: seq<Epoch>, h: seq<HistoryEpoch>)
    requires h != [] && h[|h| - 1].timestamp in Timestamps(existing)
    requires HistoryShape(existing, h[..|h| - 1], HistoryFold(existing, h[..|h| - 1]))
    ensures |HistoryFold(existing, h)| == |existing| + |NewHistory(existing, h)|
    ensures forall i :: 0 <= i < |existing| ==> HistoryFold(existing, h)[i] == HistorySlot(existing, h, i)
    ensures HistoryFold(existing, h)[|existing|..] == NewHistory(existing, h)
  {
    var x := h[|h| - 1];
    var m := HistoryFold(existing, h[..|h| - 1]);
    var m' := HistoryFold(existing, h);
    var k := LastIndex(existing, x.timestamp);
    assert NewHistory(existing, h) == NewHistory(existing, h[..|h| - 1]);
    assert m' == m[k := WithHistory(m[k], x.historyScore)];
    forall i | 0 <= i < |existing| ensures m'[i] == HistorySlot(existing, h, i) {
      HistorySlotStep(existing, h, i);
    }
    assert m'[|existing|..] == m[|existing|..];
  }

  lemma HistoryStepNew(existing: seq<Epoch>, h: seq<HistoryEpoch>)
    requires h != [] && h[|h| - 1].timestamp !in Timestamps(existing)
    requires HistoryShape(existing, h[..|h| - 1], HistoryFold(existing, h[..|h| - 1]))
    ensures |HistoryFold(existing, h)| == |existing| + |NewHistory(existing, h)|
    ensures forall i :: 0 <= i < |existing| ==> HistoryFold(existing, h)[i] == HistorySlot(existing, h, i)
    ensures HistoryFold(existing, h)[|existing|..] == NewHistory(existing, h)
  {
    var x := h[|h| - 1];
    var m := HistoryFold(existing, h[..|h| - 1]);
    var m' := HistoryFold(existing, h);
    assert NewHistory(existing, h) == NewHistory(existing, h[..|h| - 1]) + [FromHistory(x)];
    assert m' == m + [FromHistory(x)];
    forall i | 0 <= i < |existing| ensures m'[i] == HistorySlot(existing, h, i) {
      HistorySlotStep(existing, h, i);
    }
    assert m'[|existing|..] == m[|existing|..] + [FromHistory(x)];
  }

  lemma NewHistoryTimestamps(existing: seq<Epoch>, h: seq<HistoryEpoch>)
    ensures Timestamps(NewHistory(existing, h)) == HistoryTimestamps(h) - Timestamps(existing)
  {
    if h != [] {
      var pre := h[..|h| - 1];
      var y := h[|h| - 1];
      assert h == pre + [y];
      NewHistoryTimestamps(existing, pre);
      assert HistoryTimestamps(h) == HistoryTimestamps(pre) + {y.timestamp};
      if y.timestamp !in Timestamps(existing) {
        TimestampsConcat(NewHistory(existing, pre), [FromHistory(y)]);
        TimestampsCons(FromHistory(y), []);
      }
    }
  }

  lemma {:induction false} NewHistoryUnique(existing: seq<Epoch>, h: seq<HistoryEpoch>)
    requires UniqueHistoryTimestamps(h)
    ensures UniqueTimestamps(NewHistory(existing, h))
  {
    if h != [] {
      var pre := h[..|h| - 1];
      var y := h[|h| - 1];
      assert h == pre + [y];
      NewHistoryUnique(existing, pre);
      if y.timestamp !in Timestamps(existing) {
        var r := NewHistory(existing, pre);
        NewHistoryTimestamps(existing, pre);
        assert y.timestamp !in HistoryTimestamps(pre) by {
          forall z | z in pre ensures z.timestamp != y.timestamp {
            var j :| 0 <= j < |pre| && pre[j] == z;
            assert h[j] == z;
          }
        }
        forall j | 0 <= j < |r| ensures r[j].timestamp != y.timestamp {
          TimestampOf(r, j);
        }
      }
    }
  }

  /** Every stored timestamp is still present after the history merge, plus every history timestamp. */
  lemma MergedHistoryTimestamps(existing: seq<Epoch>, h: seq<HistoryEpoch>)
    ensures Timestamps(MergedHistory(existing, h)) == Timestamps(existing) + HistoryTimestamps(h)
    ensures |MergedHistory(existing, h)| == |existing| + |NewHistory(existing, h)|
  {
    var m := HistoryFold(existing, h);
    HistoryFoldShape(existing, h);
    MultisetTimestamps(MergedHistory(existing, h), m);
    assert m == m[..|existing|] + m[|existing|..];
    TimestampsConcat(m[..|existing|], m[|existing|..]);
    TimestampsPositional(m[..|existing|], existing);
    NewHistoryTimestamps(existing, h);
    assert |MergedHistory(existing, h)| == |multiset(m)|;
  }

  /**
   * With unique stored timestamps, the record at an existing record's
   * timestamp after the merge has the last history score for it, an
   * activityScore of max(trackerScore or 0, historyScore) and the same
   * trackerScore; without a history epoch for it, the record is unchanged.
   */
  lemma MergedHistoryAt(existing: seq<Epoch>, h: seq<HistoryEpoch>, e: Epoch, x: Epoch)
    requires UniqueTimestamps(existing) && e in existing
    requires x in MergedHistory(existing, h) && x.timestamp == e.timestamp
    ensures LastHistory(h, e.timestamp).None? ==> x == e
    ensures LastHistory(h, e.timestamp).Some? ==>
      && x.historyScore == LastHistory(h, e.timestamp)
      && x.activityScore == Max(OrZero(e.trackerScore), LastHistory(h, e.timestamp).value)
      && x.trackerScore == e.trackerScore
      && x.epochDuration == e.epochDuration
  {
    var m := HistoryFold(existing, h);
    HistoryFoldShape(existing, h);
    InSortedIffIn(m, x);
    var q :| 0 <= q < |existing| && existing[q] == e;
    TimestampOf(existing, q);
    assert x !in NewHistory(existing, h);
    var p := InPrefix(m, |existing|, x);
    assert m[p] == HistorySlot(existing, h, p);
    UniqueIndex(existing, p, q);
    UniqueIndex(existing, LastIndex(existing, e.timestamp), p);
  }

  /** A history epoch whose timestamp is new is added with activityScore = historyScore and no trackerScore. */
  lemma MergedHistoryAdds(existing: seq<Epoch>, h: seq<HistoryEpoch>, y: HistoryEpoch)
    requires y in h && y.timestamp !in Timestamps(existing)
    ensures FromHistory(y) in MergedHistory(existing, h)
  {
    var m := HistoryFold(existing, h);
    HistoryFoldShape(existing, h);
    NewHistoryHas(existing, h, y);
    assert FromHistory(y) in m[|existing|..];
    InSortedIffIn(m, FromHistory(y));
  }

  lemma NewHistoryHas(existing: seq<Epoch>, h: seq<HistoryEpoch>, y: HistoryEpoch)
    requires y in h && y.timestamp !in Timestamps(existing)
    ensures FromHistory(y) in NewHistory(existing, h)
  {
    var pre := h[..|h| - 1];
    assert h == pre + [h[|h| - 1]];
    if y != h[|h| - 1] {
      NewHistoryHas(existing, pre, y);
    }
  }

  /** The merged listing is sorted by ascending timestamp (the final stable sort). */
  lemma MergedHistorySorted(existing: seq<Epoch>, h: seq<HistoryEpoch>)
    ensures Sorted(MergedHistory(existing, h))
  {
    SortByTimestampSorted(HistoryFold(existing, h));
  }

  /** With unique stored and history timestamps, the merged listing is strictly sorted: one record per timestamp. */
  lemma MergedHistoryStrictlySorted(existing: seq<Epoch>, h: seq<HistoryEpoch>)
    requires UniqueTimestamps(existing) && UniqueHistoryTimestamps(h)
    ensures StrictlySorted(MergedHistory(existing, h))
  {
    var m := HistoryFold(existing, h);
    HistoryFoldShape(existing, h);
    var n := |existing|;
    NewHistoryUnique(existing, h);
    assert m == m[..n] + m[n..];
    TimestampsPositional(m[..n], existing);
    UniquePositional(m[..n], existing);
    UniqueAppend(m[..n], m[n..]);
    SortByTimestampSorted(m);
  }

  lemma UniquePositional(a: seq<Epoch>, b: seq<Epoch>)
    requires |a| == |b| && UniqueTimestamps(b)
    requires forall i :: 0 <= i < |a| ==> a[i].timestamp == b[i].timestamp
    ensures UniqueTimestamps(a)
  {
  }

  lemma UniqueAppend(a: seq<Epoch>, b: seq<Epoch>)
    requires UniqueTimestamps(a) && UniqueTimestamps(b)
    requires forall x :: x in b ==> x.timestamp !in Timestamps(a)
    ensures UniqueTimestamps(a + b)
  {
    var c := a + b;
    forall i, j | 0 <= i < j < |c| ensures c[i].timestamp != c[j].timestamp {
      if j < |a| {
        assert c[i] == a[i] && c[j] == a[j];
      } else if i >= |a| {
        assert c[i] == b[i - |a|] && c[j] == b[j - |a|];
      } else {
        assert c[j] == b[j - |a|] && c[j] in b;
        TimestampOf(a, i);
        assert c[i] == a[i];
      }
    }
  }

  /** Scores stay within 0..100 when the stored scores and the history scores do. */
  lemma MergedHistoryScoresInRange(existing: seq<Epoch>, h: seq<HistoryEpoch>)
    requires forall e :: e in existing ==> 0 <= e.activityScore <= 100 && 0 <= OrZero(e.trackerScore) <= 100
    requires forall y :: y in h ==> 0 <= y.historyScore <= 100
    ensures forall x :: x in MergedHistory(existing, h) ==> 0 <= x.activityScore <= 100
  {
    forall x | x in MergedHistory(existing, h) ensures 0 <= x.activityScore <= 100 {
      InSortedIffIn(HistoryFold(existing, h), x);
      var p := HistoryFoldMember(existing, h, x);
      if p < |existing| {
        assert existing[p] in existing;
        var t := existing[p].timestamp;
        if LastHistory(h, t).Some? {
          var y :| y in h && y.timestamp == t && y.historyScore == LastHistory(h, t).value;
        }
      }
    }
  }

  /** Where a record of the unsorted history merge comes from: the slot of an existing record, or a new history epoch. */
  lemma HistoryFoldMember(existing: seq<Epoch>, h: seq<HistoryEpoch>, x: Epoch) returns (p: int)
    requires x in HistoryFold(existing, h)
    ensures 0 <= p
    ensures p < |existing| ==> x == HistorySlot(existing, h, p) && x.timestamp in Timestamps(existing)
    ensures p >= |existing| ==> x in NewHistory(existing, h)
  {
    var m := HistoryFold(existing, h);
    HistoryFoldShape(existing, h);
    p :| 0 <= p < |m| && m[p] == x;
    if p < |existing| {
      TimestampOf(existing, p);
    } else {
      assert m[p] == m[|existing|..][p - |existing|];
    }
  }

  /**
   * A finalised tracker epoch carries no trackerScore, so folding a lower
   * history score into it lowers its activityScore to that history score.
   */
  lemma HistoryMergeLowersUntrackedScore(t: int, duration: real)
    ensures MergedHistory([Epoch(t, 90, duration, None, None)], [HistoryEpoch(t, 10, duration)])
      == [Epoch(t, 10, duration, None, Some(10))]
  {
    var existing := [Epoch(t, 90, duration, None, None)];
    var h := [HistoryEpoch(t, 10, duration)];
    assert existing[0] in existing;
    assert h[..0] == [];
    assert HistoryFold(existing, h) == [Epoch(t, 10, duration, None, Some(10))];
  }

  // ---------------------------------------------------------------------------
  // deleteHistoryData (storage-manager.js:373-408)

  /** What the loop of deleteHistoryData does with one record: None when it is dropped. */
  function StripOne(e: Epoch): (r: Option<Epoch>)
    ensures r.None? <==> e.historyScore.Some? && e.trackerScore.None?
    ensures r.Some? ==> r.value.historyScore.None? && r.value.timestamp == e.timestamp
    ensures e.historyScore.None? ==> r == Some(e)
    ensures e.historyScore.Some? && r.Some? ==>
      r.value == e.(historyScore := None, activityScore := OrZero(e.trackerScore))
  {
    if e.historyScore.Some? then
      var stripped := e.(historyScore := None, activityScore := OrZero(e.trackerScore));
      if stripped.activityScore > 0 || e.trackerScore.Some? then Some(stripped) else None
    else Some(e)
  }

  /** The `cleanedData` array of deleteHistoryData. */
  function StripHistory(s: seq<Epoch>): (r: seq<Epoch>)
    ensures |r| <= |s|
    ensures forall x :: x in r ==> x.historyScore.None?
  {
    if s == [] then []
    else
      var pre := s[..|s| - 1];
      var rest := StripHistory(pre);
      match StripOne(s[|s| - 1])
      case None => rest
      case Some(x) => rest + [x]
  }

  method StripHistoryData(allData: seq<Epoch>) returns (cleanedData: seq<Epoch>, deletedCount: nat)
    ensures cleanedData == StripHistory(allData)
    ensures deletedCount == |allData| - |cleanedData|
  {
    cleanedData, deletedCount := [], 0;
    var k := 0;
    while k < |allData|
      invariant 0 <= k <= |allData|
      invariant cleanedData == StripHistory(allData[..k])
      invariant deletedCount + |cleanedData| == k
    {
      var epoch := allData[k];
      assert allData[..k + 1][..k] == allData[..k];
      if epoch.historyScore.Some? {
        epoch := epoch.(historyScore := None);
        var tracker := OrZero(epoch.trackerScore);
        epoch := epoch.(activityScore := tracker);
        if epoch.activityScore > 0 || epoch.trackerScore.Some? {
          cleanedData := cleanedData + [epoch];
        } else {
          deletedCount := deletedCount + 1;
        }
      } else {
        cleanedData := cleanedData + [epoch];
      }
      k := k + 1;
    }
    assert allData[..k] == allData;
  }

  /** A record survives the removal, stripped, exactly when it had no history score or it has a trackerScore. */
  lemma {:induction false} StripHistoryKeeps(s: seq<Epoch>, y: Epoch)
    requires y in s && StripOne(y).Some?
    ensures StripOne(y).value in StripHistory(s)
  {
    var pre := s[..|s| - 1];
    assert s == pre + [s[|s| - 1]];
    if y != s[|s| - 1] {
      StripHistoryKeeps(pre, y);
    }
  }

  lemma {:induction false} StripHistoryTimestamps(s: seq<Epoch>)
    ensures Timestamps(StripHistory(s)) == set y | y in s && StripOne(y).Some? :: y.timestamp
  {
    if s != [] {
      var pre := s[..|s| - 1];
      var z := s[|s| - 1];
      assert s == pre + [z];
      StripHistoryTimestamps(pre);
      var rest := StripHistory(pre);
      if StripOne(z).Some? {
        TimestampsConcat(rest, [StripOne(z).value]);
        TimestampsCons(StripOne(z).value, []);
      }
    }
  }

  /** What the removal keeps of a strictly sorted prefix lies below the record that follows it. */
  lemma StrippedBelowLast(s: seq<Epoch>, pre: seq<Epoch>, rest: seq<Epoch>)
    requires StrictlySorted(s) && s != [] && pre == s[..|s| - 1] && rest == StripHistory(pre)
    ensures forall j :: 0 <= j < |rest| ==> rest[j].timestamp < s[|s| - 1].timestamp
  {
    StripHistoryTimestamps(pre);
    forall j | 0 <= j < |rest| ensures rest[j].timestamp < s[|s| - 1].timestamp {
      TimestampOf(rest, j);
      var y :| y in pre && StripOne(y).Some? && y.timestamp == rest[j].timestamp;
      var i :| 0 <= i < |pre| && pre[i] == y;
      assert s[i] == y;
    }
  }

  lemma AppendStrictlySorted(rest: seq<Epoch>, x: Epoch)
    requires StrictlySorted(rest)
    requires forall j :: 0 <= j < |rest| ==> rest[j].timestamp < x.timestamp
    ensures StrictlySorted(rest + [x])
  {
    var r := rest + [x];
    forall i, j | 0 <= i < j < |r| ensures r[i].timestamp < r[j].timestamp {
      if j < |rest| { assert r[i] == rest[i] && r[j] == rest[j]; }
      else { assert r[i] == rest[i]; }
    }
  }

  lemma {:induction false} StripHistoryStrictlySorted(s: seq<Epoch>)
    requires StrictlySorted(s)
    ensures StrictlySorted(StripHistory(s))
  {
    if s != [] {
      var pre := s[..|s| - 1];
      var z := s[|s| - 1];
      StripHistoryStrictlySorted(pre);
      if StripOne(z).Some? {
        var rest := StripHistory(pre);
        StrippedBelowLast(s, pre, rest);
        AppendStrictlySorted(rest, StripOne(z).value);
      }
    }
  }

  /**
   * Importing history and then deleting it restores every consistent
   * tracker record (activityScore == trackerScore, no history), keeps every
   * record the history did not touch, and drops every record that history
   * created. A record without a trackerScore that history touched is dropped
   * too, which is what happens to finalised tracker epochs.
   */
  lemma HistoryRemovalRestoresTracked(existing: seq<Epoch>, h: seq<HistoryEpoch>, e: Epoch)
    requires UniqueTimestamps(existing) && e in existing && e.historyScore.None?
    requires e.trackerScore.Some? && e.activityScore == e.trackerScore.value
    ensures e in StripHistory(MergedHistory(existing, h))
  {
    var r := MergedHistory(existing, h);
    MergedHistoryTimestamps(existing, h);
    assert e.timestamp in Timestamps(r);
    var x :| x in r && x.timestamp == e.timestamp;
    MergedHistoryAt(existing, h, e, x);
    StripHistoryKeeps(r, x);
  }

  lemma HistoryRemovalKeepsUntouched(existing: seq<Epoch>, h: seq<HistoryEpoch>, e: Epoch)
    requires UniqueTimestamps(existing) && e in existing && e.historyScore.None?
    requires e.timestamp !in HistoryTimestamps(h)
    ensures e in StripHistory(MergedHistory(existing, h))
  {
    var r := MergedHistory(existing, h);
    MergedHistoryTimestamps(existing, h);
    assert e.timestamp in Timestamps(r);
    var x :| x in r && x.timestamp == e.timestamp;
    MergedHistoryAt(existing, h, e, x);
    StripHistoryKeeps(r, x);
  }

  lemma HistoryRemovalDropsUntracked(existing: seq<Epoch>, h: seq<HistoryEpoch>, e: Epoch)
    requires UniqueTimestamps(existing) && e in existing
    requires e.trackerScore.None? && e.timestamp in HistoryTimestamps(h)
    ensures e.timestamp !in Timestamps(StripHistory(MergedHistory(existing, h)))
  {
    var r := MergedHistory(existing, h);
    StripHistoryTimestamps(r);
    forall x | x in r && x.timestamp == e.timestamp ensures StripOne(x).None? {
      MergedHistoryAt(existing, h, e, x);
    }
  }

  lemma HistoryRemovalDropsHistoryOnly(existing: seq<Epoch>, h: seq<HistoryEpoch>, y: HistoryEpoch)
    requires y in h && y.timestamp !in Timestamps(existing)
    ensures y.timestamp !in Timestamps(StripHistory(MergedHistory(existing, h)))
  {
    var r := MergedHistory(existing, h);
    StripHistoryTimestamps(r);
    forall x | x in r && x.timestamp == y.timestamp ensures StripOne(x).None? {
      InSortedIffIn(HistoryFold(existing, h), x);
      var p := HistoryFoldMember(existing, h, x);
    }
  }
}
