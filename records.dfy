/**
 * The records the tracker produces and the keyed epoch store that holds them.
 *
 * An epoch record is keyed by `timestamp` (the epoch's start, in ms). The epoch
 * store keeps one record per timestamp and returns its records in ascending
 * timestamp order, so it is modelled as a strictly sorted sequence; putting a
 * record overwrites the one stored under the same timestamp.
 */
module Records {
  import opened Options

  /** A persisted epoch record; `epochDuration` is in minutes and may be fractional after an import. */
  datatype Epoch = Epoch(
    timestamp: int,
    activityScore: int,
    epochDuration: real,
    trackerScore: Option<int>,
    historyScore: Option<int>)

  /** The epoch being tracked (`currentEpoch` in background.js); a `null` start time is 0. */
  datatype CurrentEpoch = CurrentEpoch(
    startTime: int,
    activeSeconds: int,
    totalSeconds: int,
    epochDuration: Option<int>)

  /** `x || 0` on an optional number: absent and 0 both give 0. */
  function OrZero(o: Option<int>): (r: int) {
    if o.Some? then o.value else 0
  }

  function Max(a: int, b: int): (r: int) {
    if a >= b then a else b
  }

  function Timestamps(s: seq<Epoch>): (r: set<int>) {
    set e | e in s :: e.timestamp
  }

  predicate Sorted(s: seq<Epoch>) {
    forall i, j :: 0 <= i < j < |s| ==> s[i].timestamp <= s[j].timestamp
  }

  predicate StrictlySorted(s: seq<Epoch>) {
    forall i, j :: 0 <= i < j < |s| ==> s[i].timestamp < s[j].timestamp
  }

  predicate UniqueTimestamps(s: seq<Epoch>) {
    forall i, j :: 0 <= i < j < |s| ==> s[i].timestamp != s[j].timestamp
  }

  lemma TimestampOf(s: seq<Epoch>, i: int)
    requires 0 <= i < |s|
    ensures s[i].timestamp in Timestamps(s)
  {
    assert s[i] in s;
  }

  lemma TimestampsCons(x: Epoch, s: seq<Epoch>)
    ensures Timestamps([x] + s) == {x.timestamp} + Timestamps(s)
  {
    forall t | t in Timestamps([x] + s) ensures t in {x.timestamp} + Timestamps(s) {
      var y :| y in [x] + s && y.timestamp == t;
      if y != x { assert y in s; }
    }
    forall t | t in Timestamps(s) ensures t in Timestamps([x] + s) {
      var y :| y in s && y.timestamp == t;
      assert y in [x] + s;
    }
    assert x in [x] + s;
  }

  lemma MultisetTimestamps(a: seq<Epoch>, b: seq<Epoch>)
    requires multiset(a) == multiset(b)
    ensures Timestamps(a) == Timestamps(b)
  {
    forall t | t in Timestamps(a) ensures t in Timestamps(b) {
      var e :| e in a && e.timestamp == t;
      assert e in multiset(a);
    }
    forall t | t in Timestamps(b) ensures t in Timestamps(a) {
      var e :| e in b && e.timestamp == t;
      assert e in multiset(b);
    }
  }

  // ---------------------------------------------------------------------------
  // Array.prototype.sort((a, b) => a.timestamp - b.timestamp), a stable sort

  lemma HeadAtMostTail(s: seq<Epoch>)
    requires Sorted(s) && s != []
    ensures forall t :: t in Timestamps(s[1..]) ==> s[0].timestamp <= t
  {
    forall t | t in Timestamps(s[1..]) ensures s[0].timestamp <= t {
      var x :| x in s[1..] && x.timestamp == t;
      var j :| 0 <= j < |s[1..]| && s[1..][j] == x;
      assert s[j + 1] == x;
    }
  }

  /** Inserts `e` before the first record whose timestamp is not smaller. */
  function Insert(e: Epoch, s: seq<Epoch>): (r: seq<Epoch>)
    ensures multiset(r) == multiset(s) + multiset{e}
    ensures Timestamps(r) == Timestamps(s) + {e.timestamp}
  {
    if s == [] || e.timestamp <= s[0].timestamp then
      TimestampsCons(e, s);
      [e] + s
    else
      assert s == [s[0]] + s[1..];
      var rest := Insert(e, s[1..]);
      TimestampsCons(s[0], rest);
      TimestampsHead(s);
      [s[0]] + rest
  }

  lemma SortedCons(x: Epoch, s: seq<Epoch>)
    requires Sorted(s)
    requires forall j :: 0 <= j < |s| ==> x.timestamp <= s[j].timestamp
    ensures Sorted([x] + s)
  {
    var r := [x] + s;
    forall i, j | 0 <= i < j < |r| ensures r[i].timestamp <= r[j].timestamp {
      if i > 0 { assert r[i] == s[i - 1] && r[j] == s[j - 1]; }
      else { assert r[j] == s[j - 1]; }
    }
  }

  lemma StrictlySortedCons(x: Epoch, s: seq<Epoch>)
    requires StrictlySorted(s)
    requires forall j :: 0 <= j < |s| ==> x.timestamp < s[j].timestamp
    ensures StrictlySorted([x] + s)
  {
    var r := [x] + s;
    forall i, j | 0 <= i < j < |r| ensures r[i].timestamp < r[j].timestamp {
      if i > 0 { assert r[i] == s[i - 1] && r[j] == s[j - 1]; }
      else { assert r[j] == s[j - 1]; }
    }
  }

  /** Putting a record in front of a sorted listing whose timestamps are all at least its own. */
  lemma PrependSorted(x: Epoch, s: seq<Epoch>)
    requires Sorted(s)
    requires forall t :: t in Timestamps(s) ==> x.timestamp <= t
    ensures Sorted([x] + s)
  {
    forall j | 0 <= j < |s| ensures x.timestamp <= s[j].timestamp {
      TimestampOf(s, j);
    }
    SortedCons(x, s);
  }

  lemma SortedTail(s: seq<Epoch>)
    requires Sorted(s) && s != []
    ensures Sorted(s[1..])
  {
  }

  lemma {:induction false} InsertSorted(e: Epoch, s: seq<Epoch>)
    requires Sorted(s)
    ensures Sorted(Insert(e, s))
  {
    if s == [] || e.timestamp <= s[0].timestamp {
      if s != [] {
        TimestampsHead(s);
        HeadAtMostTail(s);
      }
      PrependSorted(e, s);
    } else {
      SortedTail(s);
      InsertSorted(e, s[1..]);
      HeadAtMostTail(s);
      PrependSorted(s[0], Insert(e, s[1..]));
    }
  }

  lemma {:induction false} InsertStrictlySorted(e: Epoch, s: seq<Epoch>)
    requires StrictlySorted(s) && e.timestamp !in Timestamps(s)
    ensures StrictlySorted(Insert(e, s))
  {
    if s != [] {
      TimestampsHead(s);
      HeadBelowTail(s);
    }
    if s == [] || e.timestamp <= s[0].timestamp {
      Prepend(e, s);
    } else {
      StrictlySortedTail(s);
      InsertStrictlySorted(e, s[1..]);
      Prepend(s[0], Insert(e, s[1..]));
    }
  }

  /** `Array.prototype.sort` by timestamp, which is stable: an insertion sort. */
  function SortByTimestamp(s: seq<Epoch>): (r: seq<Epoch>)
    ensures multiset(r) == multiset(s)
  {
    if s == [] then []
    else
      assert s == [s[0]] + s[1..];
      Insert(s[0], SortByTimestamp(s[1..]))
  }

  /** The sorted listing is in timestamp order, strictly when the timestamps are unique. */
  lemma {:induction false} SortByTimestampSorted(s: seq<Epoch>)
    ensures Sorted(SortByTimestamp(s))
    ensures UniqueTimestamps(s) ==> StrictlySorted(SortByTimestamp(s))
  {
    if s != [] {
      var rest := SortByTimestamp(s[1..]);
      SortByTimestampSorted(s[1..]);
      InsertSorted(s[0], rest);
      if UniqueTimestamps(s) {
        UniqueTail(s);
        HeadNotInTail(s);
        MultisetTimestamps(rest, s[1..]);
        InsertStrictlySorted(s[0], rest);
      }
    }
  }

  /** The records of `s` with timestamp `t`, in their order in `s`. */
  function WithTimestamp(s: seq<Epoch>, t: int): (r: seq<Epoch>)
    ensures |r| <= |s|
    ensures forall i :: 0 <= i < |r| ==> r[i].timestamp == t
  {
    if s == [] then []
    else
      (if s[0].timestamp == t then [s[0]] else []) + WithTimestamp(s[1..], t)
  }

  lemma {:induction false} WithTimestampConcat(a: seq<Epoch>, b: seq<Epoch>, t: int)
    ensures WithTimestamp(a + b, t) == WithTimestamp(a, t) + WithTimestamp(b, t)
  {
    if a == [] {
      assert a + b == b;
    } else {
      var h := if a[0].timestamp == t then [a[0]] else [];
      var ab := a + b;
      assert ab[0] == a[0] && ab[1..] == a[1..] + b;
      WithTimestampConcat(a[1..], b, t);
      calc {
        WithTimestamp(ab, t);
        h + WithTimestamp(a[1..] + b, t);
        h + (WithTimestamp(a[1..], t) + WithTimestamp(b, t));
        (h + WithTimestamp(a[1..], t)) + WithTimestamp(b, t);
      }
    }
  }

  lemma {:induction false} NoneWithTimestamp(s: seq<Epoch>, t: int)
    requires forall i :: 0 <= i < |s| ==> s[i].timestamp != t
    ensures WithTimestamp(s, t) == []
  {
    if s != [] {
      NoneWithTimestamp(s[1..], t);
    }
  }

  lemma SwapEmpty(a: seq<Epoch>, b: seq<Epoch>, w: seq<Epoch>)
    requires a == [] || b == []
    ensures a + (b + w) == b + (a + w)
  {
    if a == [] {
      assert a + (b + w) == b + w;
      assert a + w == w;
    } else {
      assert b + (a + w) == a + w;
      assert b + w == w;
    }
  }

  /** Inserting `e` puts it ahead of every record with its own timestamp. */
  lemma {:induction false} InsertWithTimestamp(e: Epoch, s: seq<Epoch>, t: int)
    ensures WithTimestamp(Insert(e, s), t) == (if e.timestamp == t then [e] else []) + WithTimestamp(s, t)
  {
    if s == [] || e.timestamp <= s[0].timestamp {
      var r := [e] + s;
      assert r[0] == e && r[1..] == s;
    } else {
      var rest := Insert(e, s[1..]);
      var r := [s[0]] + rest;
      assert r[0] == s[0] && r[1..] == rest;
      InsertWithTimestamp(e, s[1..], t);
      var hs := if s[0].timestamp == t then [s[0]] else [];
      var he := if e.timestamp == t then [e] else [];
      assert hs == [] || he == [];
      SwapEmpty(hs, he, WithTimestamp(s[1..], t));
    }
  }

  /** The sort is stable: the records sharing a timestamp keep their input order. */
  lemma {:induction false} SortByTimestampStable(s: seq<Epoch>, t: int)
    ensures WithTimestamp(SortByTimestamp(s), t) == WithTimestamp(s, t)
  {
    if s != [] {
      SortByTimestampStable(s[1..], t);
      InsertWithTimestamp(s[0], SortByTimestamp(s[1..]), t);
    }
  }

  /** An already sorted sequence comes back from the sort as it is. */
  lemma {:induction false} SortedIsFixpoint(s: seq<Epoch>)
    requires Sorted(s)
    ensures SortByTimestamp(s) == s
  {
    if s != [] {
      SortedIsFixpoint(s[1..]);
      assert s == [s[0]] + s[1..];
    }
  }

  // ---------------------------------------------------------------------------
  // The keyed epoch store

  /** The first record stored under timestamp `t`, if any. */
  function Lookup(s: seq<Epoch>, t: int): (r: Option<Epoch>)
    ensures r.None? <==> t !in Timestamps(s)
    ensures r.Some? ==> r.value in s && r.value.timestamp == t
  {
    if s == [] then None
    else if s[0].timestamp == t then assert s[0] in s; Some(s[0])
    else
      TimestampsHead(s);
      Lookup(s[1..], t)
  }

  lemma {:induction false} LookupAt(s: seq<Epoch>, i: int)
    requires UniqueTimestamps(s) && 0 <= i < |s|
    ensures Lookup(s, s[i].timestamp) == Some(s[i])
  {
    if i > 0 {
      LookupAt(s[1..], i - 1);
    }
  }

  lemma HeadBelowTail(s: seq<Epoch>)
    requires StrictlySorted(s) && s != []
    ensures forall t :: t in Timestamps(s[1..]) ==> s[0].timestamp < t
  {
    forall t | t in Timestamps(s[1..]) ensures s[0].timestamp < t {
      var x :| x in s[1..] && x.timestamp == t;
      var j :| 0 <= j < |s[1..]| && s[1..][j] == x;
      assert s[j + 1] == x;
    }
  }

  lemma HeadNotInTail(s: seq<Epoch>)
    requires UniqueTimestamps(s) && s != []
    ensures s[0].timestamp !in Timestamps(s[1..])
  {
    forall x | x in s[1..] ensures x.timestamp != s[0].timestamp {
      var j :| 0 <= j < |s[1..]| && s[1..][j] == x;
      assert s[j + 1] == x;
    }
  }

  lemma TimestampsHead(s: seq<Epoch>)
    requires s != []
    ensures Timestamps(s) == {s[0].timestamp} + Timestamps(s[1..])
  {
    assert s == [s[0]] + s[1..];
    TimestampsCons(s[0], s[1..]);
  }

  lemma StrictlySortedTail(s: seq<Epoch>)
    requires StrictlySorted(s) && s != []
    ensures StrictlySorted(s[1..])
  {
  }

  /** Putting a record in front of a strictly sorted listing whose timestamps are all later. */
  lemma Prepend(x: Epoch, s: seq<Epoch>)
    requires StrictlySorted(s)
    requires forall t :: t in Timestamps(s) ==> x.timestamp < t
    ensures StrictlySorted([x] + s)
    ensures Timestamps([x] + s) == {x.timestamp} + Timestamps(s)
  {
    forall j | 0 <= j < |s| ensures x.timestamp < s[j].timestamp {
      TimestampOf(s, j);
    }
    StrictlySortedCons(x, s);
    TimestampsCons(x, s);
  }

  /** Puts one record, replacing the one under the same timestamp (an IndexedDB `put`). */
  function Upsert(s: seq<Epoch>, e: Epoch): (r: seq<Epoch>)
    requires StrictlySorted(s)
    ensures StrictlySorted(r)
    ensures Timestamps(r) == Timestamps(s) + {e.timestamp}
  {
    if s == [] then
      Prepend(e, []);
      [e]
    else
      TimestampsHead(s);
      HeadBelowTail(s);
      if e.timestamp < s[0].timestamp then
        Prepend(e, s);
        [e] + s
      else if e.timestamp == s[0].timestamp then
        Prepend(e, s[1..]);
        [e] + s[1..]
      else
        var rest := Upsert(s[1..], e);
        Prepend(s[0], rest);
        [s[0]] + rest
  }

  lemma {:induction false} UpsertLookup(s: seq<Epoch>, e: Epoch, t: int)
    requires StrictlySorted(s)
    ensures Lookup(Upsert(s, e), t) == if t == e.timestamp then Some(e) else Lookup(s, t)
  {
    if s != [] {
      if e.timestamp < s[0].timestamp {
        assert ([e] + s)[1..] == s;
      } else if e.timestamp == s[0].timestamp {
        assert ([e] + s[1..])[1..] == s[1..];
      } else {
        StrictlySortedTail(s);
        UpsertLookup(s[1..], e, t);
        assert ([s[0]] + Upsert(s[1..], e))[1..] == Upsert(s[1..], e);
      }
    }
  }

  /** Puts each record in order (IndexedDB `saveActivityEpochs`): a later duplicate wins. */
  function PutAll(s: seq<Epoch>, es: seq<Epoch>): (r: seq<Epoch>)
    requires StrictlySorted(s)
    ensures StrictlySorted(r)
    ensures Timestamps(r) == Timestamps(s) + Timestamps(es)
    decreases |es|
  {
    if es == [] then s
    else
      TimestampsHead(es);
      PutAll(Upsert(s, es[0]), es[1..])
  }

  /** The index a keyed store keeps for `t` when `s` is put in order: the last one. */
  function LastIndex(s: seq<Epoch>, t: int): (i: nat)
    requires t in Timestamps(s)
    ensures i < |s| && s[i].timestamp == t
    ensures forall j :: i < j < |s| ==> s[j].timestamp != t
  {
    var n := |s| - 1;
    if s[n].timestamp == t then n
    else
      assert s == s[..n] + [s[n]];
      assert t in Timestamps(s[..n]) by {
        var x :| x in s && x.timestamp == t;
        var k :| 0 <= k < |s| && s[k] == x;
        assert s[..n][k] == x;
      }
      LastIndex(s[..n], t)
  }

  /** The last index holding `t` is the one with no later record holding `t`. */
  lemma LastIndexIs(s: seq<Epoch>, t: int, i: int)
    requires 0 <= i < |s| && s[i].timestamp == t
    requires forall j :: i < j < |s| ==> s[j].timestamp != t
    ensures t in Timestamps(s) && LastIndex(s, t) == i
  {
    TimestampOf(s, i);
  }

  lemma LastIndexTail(s: seq<Epoch>, t: int)
    requires s != [] && t in Timestamps(s[1..])
    ensures t in Timestamps(s) && LastIndex(s, t) == LastIndex(s[1..], t) + 1
  {
    var k := LastIndex(s[1..], t);
    assert s[k + 1] == s[1..][k];
    forall j | k + 1 < j < |s| ensures s[j].timestamp != t {
      assert s[j] == s[1..][j - 1];
    }
    LastIndexIs(s, t, k + 1);
  }

  lemma LastIndexHead(s: seq<Epoch>, t: int)
    requires s != [] && s[0].timestamp == t && t !in Timestamps(s[1..])
    ensures t in Timestamps(s) && LastIndex(s, t) == 0
  {
    forall j | 0 < j < |s| ensures s[j].timestamp != t {
      assert s[j] == s[1..][j - 1];
      TimestampOf(s[1..], j - 1);
    }
    LastIndexIs(s, t, 0);
  }

  lemma NotInTimestamps(s: seq<Epoch>, t: int)
    requires s != [] && s[0].timestamp != t && t !in Timestamps(s[1..])
    ensures t !in Timestamps(s)
  {
    TimestampsHead(s);
  }

  /** The last record of `s` with timestamp `t` is the one at `LastIndex(s, t)`. */
  lemma {:induction false} LastWithTimestamp(s: seq<Epoch>, t: int)
    requires t in Timestamps(s)
    ensures var w := WithTimestamp(s, t); w != [] && w[|w| - 1] == s[LastIndex(s, t)]
  {
    var n := |s| - 1;
    assert s == s[..n] + [s[n]];
    WithTimestampConcat(s[..n], [s[n]], t);
    assert [s[n]][1..] == [];
    if s[n].timestamp != t {
      assert t in Timestamps(s[..n]) by {
        var x :| x in s && x.timestamp == t;
        var k :| 0 <= k < |s| && s[k] == x;
        assert s[..n][k] == x;
      }
      LastWithTimestamp(s[..n], t);
    }
  }

  /** Two sequences with the same records under `t`, in the same order, agree on their last one. */
  lemma SameLastWithTimestamp(a: seq<Epoch>, b: seq<Epoch>, t: int)
    requires t in Timestamps(a) && t in Timestamps(b)
    requires WithTimestamp(a, t) == WithTimestamp(b, t)
    ensures a[LastIndex(a, t)] == b[LastIndex(b, t)]
  {
    LastWithTimestamp(a, t);
    LastWithTimestamp(b, t);
  }

  /**
   * After a batch is put, each of its timestamps holds the batch's last
   * record with that timestamp; every other timestamp answers as before.
   */
  lemma {:induction false} PutAllLookup(s: seq<Epoch>, es: seq<Epoch>, t: int)
    requires StrictlySorted(s)
    ensures Lookup(PutAll(s, es), t) == if t in Timestamps(es) then Some(es[LastIndex(es, t)]) else Lookup(s, t)
    decreases |es|
  {
    if es != [] {
      var u := Upsert(s, es[0]);
      var r := PutAll(u, es[1..]);
      assert PutAll(s, es) == r;
      assert Lookup(r, t) == if t in Timestamps(es[1..]) then Some(es[1..][LastIndex(es[1..], t)]) else Lookup(u, t) by {
        PutAllLookup(u, es[1..], t);
      }
      assert Lookup(u, t) == if t == es[0].timestamp then Some(es[0]) else Lookup(s, t) by {
        UpsertLookup(s, es[0], t);
      }
      if t in Timestamps(es[1..]) {
        LastIndexTail(es, t);
      } else if t == es[0].timestamp {
        LastIndexHead(es, t);
      } else {
        NotInTimestamps(es, t);
      }
    }
  }

  lemma UniqueTail(s: seq<Epoch>)
    requires UniqueTimestamps(s) && s != []
    ensures UniqueTimestamps(s[1..])
  {
    forall i, j | 0 <= i < j < |s[1..]| ensures s[1..][i].timestamp != s[1..][j].timestamp {
      assert s[1..][i] == s[i + 1] && s[1..][j] == s[j + 1];
    }
  }

  /** Below its first record, a strictly sorted store answers lookups as its tail does. */
  lemma LookupTail(s: seq<Epoch>, t: int)
    requires StrictlySorted(s) && s != []
    ensures Lookup(s[1..], t) == if t == s[0].timestamp then None else Lookup(s, t)
  {
    HeadBelowTail(s);
  }

  lemma LookupHead(s: seq<Epoch>)
    requires s != []
    ensures Lookup(s, s[0].timestamp) == Some(s[0])
  {
  }

  lemma NoLookupsEmpty(s: seq<Epoch>)
    requires forall t :: Lookup(s, t).None?
    ensures s == []
  {
    if s != [] {
      LookupHead(s);
      assert false;
    }
  }

  lemma HeadsAgree(a: seq<Epoch>, b: seq<Epoch>)
    requires StrictlySorted(a) && StrictlySorted(b) && a != []
    requires forall t :: Lookup(a, t) == Lookup(b, t)
    ensures b != [] && a[0] == b[0]
  {
    LookupAt(a, 0);
    assert Lookup(b, a[0].timestamp) == Some(a[0]);
    var i :| 0 <= i < |b| && b[i] == a[0];
    LookupAt(b, 0);
    assert Lookup(a, b[0].timestamp) == Some(b[0]);
    var j :| 0 <= j < |a| && a[j] == b[0];
    assert b[0].timestamp <= b[i].timestamp;
    assert a[0].timestamp <= a[j].timestamp;
  }

  lemma SameLookupsTail(a: seq<Epoch>, b: seq<Epoch>)
    requires StrictlySorted(a) && StrictlySorted(b) && a != [] && b != [] && a[0] == b[0]
    requires forall t :: Lookup(a, t) == Lookup(b, t)
    ensures forall t :: Lookup(a[1..], t) == Lookup(b[1..], t)
  {
    forall t ensures Lookup(a[1..], t) == Lookup(b[1..], t) {
      LookupTail(a, t);
      LookupTail(b, t);
    }
  }

  lemma SameHeadSameTail(a: seq<Epoch>, b: seq<Epoch>)
    requires a != [] && b != [] && a[0] == b[0] && a[1..] == b[1..]
    ensures a == b
  {
    assert a == [a[0]] + a[1..];
    assert b == [b[0]] + b[1..];
  }

  /** Two strictly sorted stores that answer every lookup alike are the same store. */
  lemma {:induction false} SameLookupsSameStore(a: seq<Epoch>, b: seq<Epoch>)
    requires StrictlySorted(a) && StrictlySorted(b)
    requires forall t :: Lookup(a, t) == Lookup(b, t)
    ensures a == b
    decreases |a|
  {
    if a == [] {
      NoLookupsEmpty(b);
    } else {
      HeadsAgree(a, b);
      StrictlySortedTail(a);
      StrictlySortedTail(b);
      SameLookupsTail(a, b);
      SameLookupsSameStore(a[1..], b[1..]);
      SameHeadSameTail(a, b);
    }
  }

  /**
   * Putting a strictly sorted batch whose timestamps cover every stored one
   * leaves exactly that batch in the store; with an empty store this says that
   * clearing and re-saving a sorted listing reproduces it.
   */
  lemma PutAllCovering(s: seq<Epoch>, es: seq<Epoch>)
    requires StrictlySorted(s) && StrictlySorted(es)
    requires Timestamps(s) <= Timestamps(es)
    ensures PutAll(s, es) == es
  {
    forall t ensures Lookup(PutAll(s, es), t) == Lookup(es, t) {
      PutAllLookup(s, es, t);
      if t in Timestamps(es) {
        LookupAt(es, LastIndex(es, t));
      }
    }
    SameLookupsSameStore(PutAll(s, es), es);
  }
}
