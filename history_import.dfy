/**
 * The first half of `importHistoryData` (storage-manager.js:324-354): browser
 * history visits are grouped into epoch-aligned buckets, in the order a
 * bucket is first seen, and each bucket becomes a history epoch scored
 * min(100, 10 * visits).
 */
module HistoryImport {
  import opened Options
  import opened Merge

  /** A history visit: `visitTime`, or the legacy `visit_time` spelling; either may be absent. */
  datatype Visit = Visit(visitTime: Option<int>, legacyVisitTime: Option<int>)

  /** `visit.visitTime || visit.visit_time`; None when both are falsy (absent or 0) and the visit is skipped. */
  function VisitStamp(v: Visit): (r: Option<int>)
    ensures r.None? <==>
      (v.visitTime.None? || v.visitTime.value == 0) && (v.legacyVisitTime.None? || v.legacyVisitTime.value == 0)
    ensures r.Some? ==> r.value != 0 && (r == v.visitTime || r == v.legacyVisitTime)
    ensures v.visitTime.Some? && v.visitTime.value != 0 ==> r == v.visitTime
  {
    if v.visitTime.Some? && v.visitTime.value != 0 then v.visitTime
    else if v.legacyVisitTime.Some? && v.legacyVisitTime.value != 0 then v.legacyVisitTime
    else None
  }

  lemma {:induction false} MulBounds(x: int, ms: int)
    requires ms > 0
    ensures x >= 1 ==> x * ms >= ms
    ensures x <= -1 ==> x * ms <= -ms
    decreases if x < 0 then -x else x
  {
    if x > 1 {
      MulBounds(x - 1, ms);
      assert x * ms == (x - 1) * ms + ms;
    } else if x < -1 {
      MulBounds(x + 1, ms);
      assert x * ms == (x + 1) * ms - ms;
    }
  }

  /** Division by `ms` of a multiple of `ms` is exact. */
  lemma MultipleDiv(q: int, ms: int)
    requires ms > 0
    ensures (q * ms) / ms == q && (q * ms) % ms == 0
  {
    var d := (q * ms) / ms;
    var r := (q * ms) % ms;
    assert q * ms == d * ms + r;
    assert (q - d) * ms == r;
    MulBounds(q - d, ms);
  }

  /** `Math.floor(t / ms) * ms`: the start of the epoch-aligned window holding `t`. */
  function BucketStart(t: int, ms: int): (b: int)
    requires ms > 0
    ensures b <= t < b + ms
    ensures b % ms == 0
  {
    MultipleDiv(t / ms, ms);
    (t / ms) * ms
  }

  /** The window `[k * ms, k * ms + ms)` has bucket `k * ms`, so all instants of one window share it. */
  lemma BucketStartOfWindow(t: int, ms: int, k: int)
    requires ms > 0 && k * ms <= t < k * ms + ms
    ensures BucketStart(t, ms) == k * ms
  {
    var q := t / ms;
    assert t == q * ms + t % ms;
    assert (q - k) * ms == q * ms - k * ms;
    MulBounds(q - k, ms);
  }

  /** The number of visits with a usable timestamp. */
  function KeptCount(visits: seq<Visit>): (r: nat) {
    if visits == [] then 0
    else KeptCount(visits[..|visits| - 1]) + (if VisitStamp(visits[|visits| - 1]).Some? then 1 else 0)
  }

  /** The number of visits whose timestamp falls in the bucket starting at `b`. */
  function BucketCount(visits: seq<Visit>, ms: int, b: int): (r: nat)
    requires ms > 0
  {
    if visits == [] then 0
    else
      var stamp := VisitStamp(visits[|visits| - 1]);
      BucketCount(visits[..|visits| - 1], ms, b) + (if stamp.Some? && BucketStart(stamp.value, ms) == b then 1 else 0)
  }

  /** The buckets in the order the visits first reach them (the key order of a JavaScript Map). */
  function BucketOrder(visits: seq<Visit>, ms: int): (keys: seq<int>)
    requires ms > 0
    ensures forall i, j :: 0 <= i < j < |keys| ==> keys[i] != keys[j]
    ensures forall b :: b in keys <==> BucketCount(visits, ms, b) > 0
    ensures forall b :: b in keys ==> b % ms == 0
  {
    if visits == [] then []
    else
      var keys := BucketOrder(visits[..|visits| - 1], ms);
      match VisitStamp(visits[|visits| - 1])
      case None => keys
      case Some(t) =>
        var b := BucketStart(t, ms);
        if b in keys then keys else keys + [b]
  }

  /** The total of `counts` over `keys`. */
  function SumCounts(keys: seq<int>, counts: map<int, nat>): (r: int)
    requires forall k :: k in keys ==> k in counts
  {
    if keys == [] then 0
    else
      var last := keys[|keys| - 1];
      assert last in keys;
      SumCounts(keys[..|keys| - 1], counts) + counts[last]
  }

  lemma {:induction false} SumCountsOther(keys: seq<int>, counts: map<int, nat>, b: int, c: nat)
    requires forall k :: k in keys ==> k in counts
    requires b !in keys
    ensures SumCounts(keys, counts[b := c]) == SumCounts(keys, counts)
  {
    if keys != [] {
      SumCountsOther(keys[..|keys| - 1], counts, b, c);
    }
  }

  lemma {:induction false} SumCountsBump(keys: seq<int>, counts: map<int, nat>, b: int)
    requires forall k :: k in keys ==> k in counts
    requires forall i, j :: 0 <= i < j < |keys| ==> keys[i] != keys[j]
    requires b in keys
    ensures SumCounts(keys, counts[b := counts[b] + 1]) == SumCounts(keys, counts) + 1
  {
    var pre := keys[..|keys| - 1];
    var last := keys[|keys| - 1];
    if last == b {
      assert b !in pre by {
        forall i | 0 <= i < |pre| ensures pre[i] != b {
          assert keys[i] == pre[i];
        }
      }
      SumCountsOther(pre, counts, b, counts[b] + 1);
    } else {
      assert b in pre by {
        var i :| 0 <= i < |keys| && keys[i] == b;
        assert pre[i] == b;
      }
      SumCountsBump(pre, counts, b);
    }
  }

  /** What one more visit does to the kept count and the bucket order. */
  lemma GroupStep(visits: seq<Visit>, ms: int, i: int)
    requires ms > 0 && 0 <= i < |visits|
    ensures KeptCount(visits[..i + 1]) == KeptCount(visits[..i]) + (if VisitStamp(visits[i]).Some? then 1 else 0)
    ensures VisitStamp(visits[i]).None? ==> BucketOrder(visits[..i + 1], ms) == BucketOrder(visits[..i], ms)
    ensures VisitStamp(visits[i]).Some? ==>
      var b := BucketStart(VisitStamp(visits[i]).value, ms);
      BucketOrder(visits[..i + 1], ms) ==
        if b in BucketOrder(visits[..i], ms) then BucketOrder(visits[..i], ms) else BucketOrder(visits[..i], ms) + [b]
  {
    assert visits[..i + 1][..i] == visits[..i];
  }

  /** What one more visit does to the count of the bucket `c`. */
  lemma BucketStep(visits: seq<Visit>, ms: int, i: int, c: int)
    requires ms > 0 && 0 <= i < |visits|
    ensures BucketCount(visits[..i + 1], ms, c) == BucketCount(visits[..i], ms, c) +
      (if VisitStamp(visits[i]).Some? && BucketStart(VisitStamp(visits[i]).value, ms) == c then 1 else 0)
  {
    assert visits[..i + 1][..i] == visits[..i];
  }

  /** The body of the grouping loop for a visit in the bucket `epochStart`. */
  method CountVisit(keys: seq<int>, counts: map<int, nat>, epochStart: int) returns (keys': seq<int>, counts': map<int, nat>)
    requires forall b :: b in counts <==> b in keys
    requires forall i, j :: 0 <= i < j < |keys| ==> keys[i] != keys[j]
    ensures keys' == if epochStart in keys then keys else keys + [epochStart]
    ensures forall b :: b in counts' <==> b in keys'
    ensures forall b :: b in counts' ==> counts'[b] == (if b in counts then counts[b] else 0) + (if b == epochStart then 1 else 0)
    ensures SumCounts(keys', counts') == SumCounts(keys, counts) + 1
  {
    keys', counts' := keys, counts;
    if epochStart !in counts' {
      SumCountsOther(keys', counts', epochStart, 0);
      counts' := counts'[epochStart := 0];
      keys' := keys' + [epochStart];
      assert SumCounts(keys', counts') == SumCounts(keys, counts);
    }
    SumCountsBump(keys', counts', epochStart);
    counts' := counts'[epochStart := counts'[epochStart] + 1];
  }

  /** A visit without a usable timestamp leaves the grouping as it is. */
  lemma GroupedSkip(visits: seq<Visit>, ms: int, i: int, keys: seq<int>, counts: map<int, nat>)
    requires ms > 0 && 0 <= i < |visits| && VisitStamp(visits[i]).None?
    requires keys == BucketOrder(visits[..i], ms)
    requires forall b :: b in counts <==> b in keys
    requires forall b :: b in counts ==> counts[b] == BucketCount(visits[..i], ms, b)
    requires SumCounts(keys, counts) == KeptCount(visits[..i])
    ensures keys == BucketOrder(visits[..i + 1], ms)
    ensures forall b :: b in counts <==> b in keys
    ensures forall b :: b in counts ==> counts[b] == BucketCount(visits[..i + 1], ms, b)
    ensures SumCounts(keys, counts) == KeptCount(visits[..i + 1])
  {
    GroupStep(visits, ms, i);
    forall c | c in counts ensures counts[c] == BucketCount(visits[..i + 1], ms, c) {
      BucketStep(visits, ms, i, c);
    }
  }

  /** The counts after one more visit in the bucket `b`, as CountVisit leaves them. */
  ghost predicate Counted(keys: seq<int>, counts: map<int, nat>, b: int, keys': seq<int>, counts': map<int, nat>) {
    && keys' == (if b in keys then keys else keys + [b])
    && (forall c :: c in counts' <==> c in keys')
    && (forall c :: c in counts' ==> counts'[c] == (if c in counts then counts[c] else 0) + (if c == b then 1 else 0))
  }

  /** A visit counted in its bucket extends the grouping by that visit. */
  lemma GroupedCount(visits: seq<Visit>, ms: int, i: int, keys: seq<int>, counts: map<int, nat>,
                     keys': seq<int>, counts': map<int, nat>)
    requires ms > 0 && 0 <= i < |visits| && VisitStamp(visits[i]).Some?
    requires keys == BucketOrder(visits[..i], ms)
    requires forall b :: b in counts <==> b in keys
    requires forall b :: b in counts ==> counts[b] == BucketCount(visits[..i], ms, b)
    requires SumCounts(keys, counts) == KeptCount(visits[..i])
    requires Counted(keys, counts, BucketStart(VisitStamp(visits[i]).value, ms), keys', counts')
    requires SumCounts(keys', counts') == SumCounts(keys, counts) + 1
    ensures keys' == BucketOrder(visits[..i + 1], ms)
    ensures forall b :: b in counts' <==> b in keys'
    ensures forall b :: b in counts' ==> counts'[b] == BucketCount(visits[..i + 1], ms, b)
    ensures SumCounts(keys', counts') == KeptCount(visits[..i + 1])
  {
    GroupStep(visits, ms, i);
    GroupedCountBuckets(visits, ms, i, keys, counts, keys', counts');
  }

  lemma GroupedCountBuckets(visits: seq<Visit>, ms: int, i: int, keys: seq<int>, counts: map<int, nat>,
                            keys': seq<int>, counts': map<int, nat>)
    requires ms > 0 && 0 <= i < |visits| && VisitStamp(visits[i]).Some?
    requires keys == BucketOrder(visits[..i], ms)
    requires forall c :: c in counts <==> c in keys
    requires forall c :: c in counts ==> counts[c] == BucketCount(visits[..i], ms, c)
    requires Counted(keys, counts, BucketStart(VisitStamp(visits[i]).value, ms), keys', counts')
    ensures forall c :: c in counts' ==> counts'[c] == BucketCount(visits[..i + 1], ms, c)
  {
    var b := BucketStart(VisitStamp(visits[i]).value, ms);
    forall c | c in counts' ensures counts'[c] == BucketCount(visits[..i + 1], ms, c) {
      BucketStep(visits, ms, i, c);
      if c !in counts {
        assert c in keys' && c !in keys;
        assert c == b && BucketCount(visits[..i], ms, c) == 0;
      }
    }
  }

  /**
   * The grouping loop: `keys` lists the buckets in first-seen order, `counts`
   * holds the number of visits in each, and no usable visit is lost.
   */
  method GroupVisits(visits: seq<Visit>, ms: int) returns (keys: seq<int>, counts: map<int, nat>)
    requires ms > 0
    ensures keys == BucketOrder(visits, ms)
    ensures forall b :: b in counts <==> b in keys
    ensures forall b :: b in counts ==> counts[b] == BucketCount(visits, ms, b)
    ensures SumCounts(keys, counts) == KeptCount(visits)
  {
    keys, counts := [], map[];
    var i := 0;
    while i < |visits|
      invariant 0 <= i <= |visits|
      invariant keys == BucketOrder(visits[..i], ms)
      invariant forall b :: b in counts <==> b in keys
      invariant forall b :: b in counts ==> counts[b] == BucketCount(visits[..i], ms, b)
      invariant SumCounts(keys, counts) == KeptCount(visits[..i])
    {
      var stamp := VisitStamp(visits[i]);
      if stamp.Some? {
        var epochStart := BucketStart(stamp.value, ms);
        var keys', counts' := CountVisit(keys, counts, epochStart);
        GroupedCount(visits, ms, i, keys, counts, keys', counts');
        keys, counts := keys', counts';
      } else {
        GroupedSkip(visits, ms, i, keys, counts);
      }
      i := i + 1;
    }
    assert visits[..i] == visits;
  }

  /** `Math.min(100, visitCount * 10)`. */
  function HistoryScore(visitCount: nat): (r: int)
    ensures 0 <= r <= 100
    ensures r <= 10 * visitCount
    ensures r < 100 ==> r == 10 * visitCount
  {
    if visitCount * 10 < 100 then visitCount * 10 else 100
  }

  /** The history epochs importHistoryData builds from `visits` for epochs of `epochDuration` minutes. */
  function HistoryEpochs(visits: seq<Visit>, epochDuration: int): (r: seq<HistoryEpoch>)
    requires epochDuration > 0
    ensures |r| == |BucketOrder(visits, epochDuration * 60 * 1000)|
    ensures UniqueHistoryTimestamps(r)
    ensures forall y :: y in r ==>
      && y.timestamp % (epochDuration * 60 * 1000) == 0
      && BucketCount(visits, epochDuration * 60 * 1000, y.timestamp) > 0
      && y.historyScore == HistoryScore(BucketCount(visits, epochDuration * 60 * 1000, y.timestamp))
      && 0 < y.historyScore <= 100
      && y.epochDuration == epochDuration as real
  {
    var ms := epochDuration * 60 * 1000;
    var keys := BucketOrder(visits, ms);
    seq(|keys|, i requires 0 <= i < |keys| =>
      HistoryEpoch(keys[i], HistoryScore(BucketCount(visits, ms, keys[i])), epochDuration as real))
  }

  /** The conversion loop over the grouped buckets. */
  method BuildHistoryEpochs(keys: seq<int>, counts: map<int, nat>, epochDuration: int) returns (epochs: seq<HistoryEpoch>)
    requires forall i :: 0 <= i < |keys| ==> keys[i] in counts
    ensures |epochs| == |keys|
    ensures forall i :: 0 <= i < |keys| ==>
      epochs[i] == HistoryEpoch(keys[i], HistoryScore(counts[keys[i]]), epochDuration as real)
  {
    epochs := [];
    var i := 0;
    while i < |keys|
      invariant 0 <= i <= |keys|
      invariant |epochs| == i
      invariant forall j :: 0 <= j < i ==>
        epochs[j] == HistoryEpoch(keys[j], HistoryScore(counts[keys[j]]), epochDuration as real)
    {
      epochs := epochs + [HistoryEpoch(keys[i], HistoryScore(counts[keys[i]]), epochDuration as real)];
      i := i + 1;
    }
  }

  /** Both loops of importHistoryData together compute `HistoryEpochs`. */
  method ComputeHistoryEpochs(visits: seq<Visit>, epochDuration: int) returns (epochs: seq<HistoryEpoch>)
    requires epochDuration > 0
    ensures epochs == HistoryEpochs(visits, epochDuration)
  {
    var epochDurationMs := epochDuration * 60 * 1000;
    var keys, counts := GroupVisits(visits, epochDurationMs);
    epochs := BuildHistoryEpochs(keys, counts, epochDuration);
  }

  lemma {:induction false} BucketCountOfVisit(visits: seq<Visit>, ms: int, k: int)
    requires ms > 0 && 0 <= k < |visits| && VisitStamp(visits[k]).Some?
    ensures BucketCount(visits, ms, BucketStart(VisitStamp(visits[k]).value, ms)) > 0
  {
    var pre := visits[..|visits| - 1];
    if k < |visits| - 1 {
      assert pre[k] == visits[k];
      BucketCountOfVisit(pre, ms, k);
    }
  }

  lemma HistoryEpochsCoverVisits(visits: seq<Visit>, epochDuration: int, k: int)
    requires epochDuration > 0 && 0 <= k < |visits| && VisitStamp(visits[k]).Some?
    ensures BucketStart(VisitStamp(visits[k]).value, epochDuration * 60 * 1000)
      in HistoryTimestamps(HistoryEpochs(visits, epochDuration))
  {
    var ms := epochDuration * 60 * 1000;
    var b := BucketStart(VisitStamp(visits[k]).value, ms);
    BucketCountOfVisit(visits, ms, k);
    var keys := BucketOrder(visits, ms);
    var j :| 0 <= j < |keys| && keys[j] == b;
    assert HistoryEpochs(visits, epochDuration)[j] in HistoryEpochs(visits, epochDuration);
  }

  /** Ten visits in one window saturate its score. */
  lemma HistoryScoreSaturates(visitCount: nat)
    requires visitCount >= 10
    ensures HistoryScore(visitCount) == 100
  {
  }
}
