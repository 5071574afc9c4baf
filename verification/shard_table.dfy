/** The shard table of the ingest router.

    A `ShardTableEntry` holds the open shards of one (index, source) pair,
    sorted by shard id without duplicates, and a round-robin cursor. The
    `ShardTable` maps (index id, source id) keys to entries; inserting shards
    for a key replaces its entry wholesale. */
module Sharding {
  import opened Wrappers

  datatype ShardState = Open | Closed

  /** A shard record; only `shardId` and `state` matter here, the rest is payload. */
  datatype Shard = Shard(indexUid: string, shardId: nat, leaderId: string, state: ShardState)

  predicate IsOpen(s: Shard) {
    s.state == Open
  }

  /** The ids of a sequence of shards, as a set. */
  function IdSet(shards: seq<Shard>): set<nat> {
    set s | s in shards :: s.shardId
  }

  /** The ids of the open shards among `shards`. */
  function OpenIds(shards: seq<Shard>): set<nat> {
    set s | s in shards && IsOpen(s) :: s.shardId
  }

  predicate SortedById(shards: seq<Shard>) {
    forall i, j :: 0 <= i < j < |shards| ==> shards[i].shardId <= shards[j].shardId
  }

  /** Sorted and duplicate-free by shard id. */
  predicate StrictlyIncreasing(shards: seq<Shard>) {
    forall i, j :: 0 <= i < j < |shards| ==> shards[i].shardId < shards[j].shardId
  }

  predicate AllOpen(shards: seq<Shard>) {
    forall s :: s in shards ==> IsOpen(s)
  }

  // ----- ShardTableEntry -----

  datatype ShardTableEntry = ShardTableEntry(shards: seq<Shard>, roundRobinIdx: nat)

  /** The invariant every entry in use satisfies. */
  predicate ValidEntry(e: ShardTableEntry) {
    |e.shards| > 0 && AllOpen(e.shards) && StrictlyIncreasing(e.shards)
  }

  /** Why an entry cannot be built. */
  datatype EntryError = NoOpenShards

  /** Keeps the open shards, in order. */
  function RetainOpen(shards: seq<Shard>): (r: seq<Shard>)
    ensures forall s :: s in r <==> s in shards && IsOpen(s)
  {
    if |shards| == 0 then []
    else if IsOpen(shards[0]) then [shards[0]] + RetainOpen(shards[1..])
    else RetainOpen(shards[1..])
  }

  /** Inserts `x` into a sequence sorted by id, after the shards with smaller ids. */
  function InsertById(x: Shard, sorted: seq<Shard>): (r: seq<Shard>)
    requires SortedById(sorted)
    ensures SortedById(r)
    ensures multiset(r) == multiset(sorted) + multiset{x}
  {
    if |sorted| == 0 || x.shardId <= sorted[0].shardId then
      InsertFront(x, sorted);
      [x] + sorted
    else
      var rest := InsertById(x, sorted[1..]);
      InsertBehind(x, sorted, rest);
      [sorted[0]] + rest
  }

  /** The step of `InsertById` that puts `x` in front. */
  lemma InsertFront(x: Shard, sorted: seq<Shard>)
    requires SortedById(sorted)
    requires |sorted| == 0 || x.shardId <= sorted[0].shardId
    ensures SortedById([x] + sorted)
  {
    var r := [x] + sorted;
    forall i, j | 0 <= i < j < |r|
      ensures r[i].shardId <= r[j].shardId
    {
      assert r[j] == sorted[j - 1];
      if i > 0 {
        assert r[i] == sorted[i - 1];
      }
    }
  }

  /** The step of `InsertById` that keeps the head and inserts `x` behind it. */
  lemma InsertBehind(x: Shard, sorted: seq<Shard>, rest: seq<Shard>)
    requires SortedById(sorted) && |sorted| > 0
    requires sorted[0].shardId < x.shardId
    requires SortedById(rest)
    requires multiset(rest) == multiset(sorted[1..]) + multiset{x}
    ensures SortedById([sorted[0]] + rest)
    ensures multiset([sorted[0]] + rest) == multiset(sorted) + multiset{x}
  {
    assert sorted == [sorted[0]] + sorted[1..];
    var r := [sorted[0]] + rest;
    forall k | 0 <= k < |rest|
      ensures sorted[0].shardId <= rest[k].shardId
    {
      assert rest[k] in multiset(rest);
      if rest[k] != x {
        assert rest[k] in multiset(sorted[1..]);
        assert rest[k] in sorted[1..];
        var n :| 0 <= n < |sorted[1..]| && sorted[1..][n] == rest[k];
        assert rest[k] == sorted[n + 1];
      }
    }
    forall i, j | 0 <= i < j < |r|
      ensures r[i].shardId <= r[j].shardId
    {
      assert r[j] == rest[j - 1];
      if i > 0 {
        assert r[i] == rest[i - 1];
      }
    }
  }

  /** Sorts by shard id. Rust's unstable sort leaves the order of shards with
      equal ids unspecified; this model picks insertion order. */
  function SortById(shards: seq<Shard>): (r: seq<Shard>)
    ensures SortedById(r)
    ensures multiset(r) == multiset(shards)
  {
    if |shards| == 0 then []
    else
      assert shards == [shards[0]] + shards[1..];
      InsertById(shards[0], SortById(shards[1..]))
  }

  /** Removes consecutive shards with the same id, keeping the first of each run. */
  function DedupById(shards: seq<Shard>): (r: seq<Shard>)
    requires SortedById(shards)
    ensures StrictlyIncreasing(r)
    ensures IdSet(r) == IdSet(shards)
    ensures forall s :: s in r ==> s in shards
    ensures |shards| > 0 ==> |r| > 0 && r[0] == shards[0]
  {
    if |shards| <= 1 then shards
    else
      var rest := DedupById(shards[1..]);
      IdSetCons(shards[0], shards[1..]);
      assert shards == [shards[0]] + shards[1..];
      if shards[0].shardId == shards[1].shardId then
        DedupKeepFirst(shards, rest);
        [shards[0]] + rest[1..]
      else
        DedupPrepend(shards, rest);
        [shards[0]] + rest
  }

  lemma IdSetCons(x: Shard, tail: seq<Shard>)
    ensures IdSet([x] + tail) == {x.shardId} + IdSet(tail)
  {
    var r := [x] + tail;
    forall s | s in r
      ensures s == x || s in tail
    {
      var k :| 0 <= k < |r| && r[k] == s;
      if k > 0 {
        assert s == tail[k - 1];
      }
    }
    assert forall s :: s in tail ==> s in r;
  }

  /** Every shard after the first of a sorted sequence has an id at least the second's. */
  lemma SortedTail(shards: seq<Shard>)
    requires |shards| > 1 && SortedById(shards)
    ensures forall s :: s in shards[1..] ==> shards[1].shardId <= s.shardId
  {
    forall s | s in shards[1..]
      ensures shards[1].shardId <= s.shardId
    {
      var k :| 0 <= k < |shards[1..]| && shards[1..][k] == s;
      assert s == shards[k + 1];
    }
  }

  /** The step of `DedupById` that keeps the first of two equal ids. */
  lemma DedupKeepFirst(shards: seq<Shard>, rest: seq<Shard>)
    requires |shards| > 1
    requires shards[0].shardId == shards[1].shardId
    requires StrictlyIncreasing(rest)
    requires IdSet(rest) == IdSet(shards[1..])
    requires forall s :: s in rest ==> s in shards[1..]
    requires |rest| > 0 && rest[0] == shards[1]
    ensures StrictlyIncreasing([shards[0]] + rest[1..])
    ensures IdSet([shards[0]] + rest[1..]) == IdSet(shards)
    ensures forall s :: s in [shards[0]] + rest[1..] ==> s in shards
  {
    var r := [shards[0]] + rest[1..];
    assert forall k :: 0 < k < |r| ==> r[k] == rest[k];
    forall i, j | 0 <= i < j < |r|
      ensures r[i].shardId < r[j].shardId
    {
      assert rest[i].shardId < rest[j].shardId;
    }
    IdSetCons(shards[0], rest[1..]);
    IdSetCons(rest[0], rest[1..]);
    assert rest == [rest[0]] + rest[1..];
    IdSetCons(shards[0], shards[1..]);
    assert shards == [shards[0]] + shards[1..];
    assert shards[1] in shards[1..];
    forall s | s in r
      ensures s in shards
    {
      if s != shards[0] {
        assert s in rest[1..];
        assert s in rest;
      }
    }
  }

  /** The step of `DedupById` that keeps a shard whose id is new. */
  lemma DedupPrepend(shards: seq<Shard>, rest: seq<Shard>)
    requires |shards| > 1 && SortedById(shards)
    requires shards[0].shardId != shards[1].shardId
    requires StrictlyIncreasing(rest)
    requires IdSet(rest) == IdSet(shards[1..])
    requires forall s :: s in rest ==> s in shards[1..]
    ensures StrictlyIncreasing([shards[0]] + rest)
    ensures IdSet([shards[0]] + rest) == IdSet(shards)
    ensures forall s :: s in [shards[0]] + rest ==> s in shards
  {
    var r := [shards[0]] + rest;
    SortedTail(shards);
    forall j | 0 < j < |r|
      ensures shards[0].shardId < r[j].shardId
    {
      assert r[j] == rest[j - 1];
      assert rest[j - 1] in rest;
    }
    forall i, j | 0 < i < j < |r|
      ensures r[i].shardId < r[j].shardId
    {
      assert r[i] == rest[i - 1];
      assert r[j] == rest[j - 1];
    }
    IdSetCons(shards[0], rest);
    IdSetCons(shards[0], shards[1..]);
    assert shards == [shards[0]] + shards[1..];
    forall s | s in r
      ensures s in shards
    {
      if s != shards[0] {
        assert s in rest;
      }
    }
  }

  /** Builds an entry: open shards only, sorted and deduplicated by id, cursor
      at 0. Fails when no shard is open. */
  function NewEntry(shards: seq<Shard>): (r: Result<ShardTableEntry, EntryError>)
    ensures r.Ok? <==> exists s :: s in shards && IsOpen(s)
    ensures r.Ok? ==> ValidEntry(r.value) && r.value.roundRobinIdx == 0
    ensures r.Ok? ==> IdSet(r.value.shards) == OpenIds(shards)
    ensures r.Ok? ==> forall s :: s in r.value.shards ==> s in shards
  {
    var open := RetainOpen(shards);
    var sorted := SortById(open);
    SameElements(sorted, open);
    var deduped := DedupById(sorted);
    assert IdSet(sorted) == OpenIds(shards);
    if |deduped| == 0 then
      assert forall s :: s in shards && IsOpen(s) ==> s.shardId in IdSet(sorted);
      Err(NoOpenShards)
    else
      assert deduped[0] in shards && IsOpen(deduped[0]);
      Ok(ShardTableEntry(deduped, 0))
  }

  /** Sequences with the same multiset have the same elements. */
  lemma SameElements(a: seq<Shard>, b: seq<Shard>)
    requires multiset(a) == multiset(b)
    ensures forall s :: s in a <==> s in b
  {
    forall s
      ensures s in a <==> s in b
    {
      assert s in a <==> s in multiset(a);
      assert s in b <==> s in multiset(b);
    }
  }

  /** Hands out the shard under the cursor and advances the cursor. The slot
      is `cursor mod length` (`NextShardIsMod`), computed by `Slot`. */
  function NextShardRoundRobin(e: ShardTableEntry): (r: (Shard, ShardTableEntry))
    requires |e.shards| > 0
    ensures r.0 in e.shards
    ensures r.1 == e.(roundRobinIdx := e.roundRobinIdx + 1)
  {
    (e.shards[Slot(e.roundRobinIdx, |e.shards|)], e.(roundRobinIdx := e.roundRobinIdx + 1))
  }

  /** The shard handed out is the one at the cursor modulo the entry's length. */
  lemma NextShardIsMod(e: ShardTableEntry)
    requires |e.shards| > 0
    ensures NextShardRoundRobin(e).0 == e.shards[e.roundRobinIdx % |e.shards|]
  {
    SlotIsMod(e.roundRobinIdx, |e.shards|);
  }

  /** The shards handed out by `k` consecutive round-robin calls. */
  function RoundRobinPicks(e: ShardTableEntry, k: nat): (r: seq<Shard>)
    requires |e.shards| > 0
    ensures |r| == k
    decreases k
  {
    if k == 0 then []
    else
      var (s, e') := NextShardRoundRobin(e);
      [s] + RoundRobinPicks(e', k - 1)
  }

  /** The i-th of consecutive calls reads the slot of cursor + i. */
  lemma {:induction false} RoundRobinPicksSlot(e: ShardTableEntry, k: nat, i: nat)
    requires |e.shards| > 0
    requires i < k
    ensures RoundRobinPicks(e, k)[i] == e.shards[Slot(e.roundRobinIdx + i, |e.shards|)]
    decreases k
  {
    if i > 0 {
      var e' := NextShardRoundRobin(e).1;
      RoundRobinPicksSlot(e', k - 1, i - 1);
      assert e'.roundRobinIdx + (i - 1) == e.roundRobinIdx + i;
    }
  }

  /** The i-th of consecutive calls reads the shard at (cursor + i) mod length. */
  lemma RoundRobinPicksAt(e: ShardTableEntry, k: nat, i: nat)
    requires |e.shards| > 0
    requires i < k
    ensures RoundRobinPicks(e, k)[i] == e.shards[(e.roundRobinIdx + i) % |e.shards|]
  {
    RoundRobinPicksSlot(e, k, i);
    SlotIsMod(e.roundRobinIdx + i, |e.shards|);
  }

  /** From a fresh entry, as many calls as there are shards hand out every
      shard once, in ascending id order, and the next call starts over. */
  lemma FreshEntryCycle(e: ShardTableEntry)
    requires ValidEntry(e)
    requires e.roundRobinIdx == 0
    ensures RoundRobinPicks(e, |e.shards|) == e.shards
    ensures StrictlyIncreasing(RoundRobinPicks(e, |e.shards|))
    ensures RoundRobinPicks(e, |e.shards| + 1)[|e.shards|] == e.shards[0]
  {
    var m := |e.shards|;
    var picks := RoundRobinPicks(e, m);
    forall i | 0 <= i < m
      ensures picks[i] == e.shards[i]
    {
      RoundRobinPicksSlot(e, m, i);
    }
    RoundRobinPicksSlot(e, m + 1, m);
    assert Slot(m, m) == Slot(0, m);
  }

  /** The remainder is the unique r in [0, m) with a == q * m + r. */
  lemma ModUnique(a: int, m: int, q: int, r: int)
    requires m > 0 && 0 <= r < m && a == q * m + r
    ensures a % m == r
  {
    var d := q - a / m;
    assert a == (a / m) * m + a % m;
    assert d * m == q * m - (a / m) * m;
    MulSign(d, m);
  }

  lemma MulSign(d: int, m: int)
    requires m > 0
    ensures d >= 1 ==> d * m >= m
    ensures d <= -1 ==> d * m <= -m
  {
  }

  /** The slot a cursor points at in a list of `len` shards, by repeated
      subtraction; `SlotIsMod` shows it is `cursor % len`. */
  function Slot(cursor: nat, len: nat): (k: nat)
    requires len > 0
    ensures k < len
    decreases cursor
  {
    if cursor < len then cursor else Slot(cursor - len, len)
  }

  lemma {:induction false} SlotIsMod(cursor: nat, len: nat)
    requires len > 0
    ensures Slot(cursor, len) == cursor % len
    decreases cursor
  {
    if cursor < len {
      ModUnique(cursor, len, 0, cursor);
    } else {
      var c := cursor - len;
      SlotIsMod(c, len);
      assert c == (c / len) * len + c % len;
      ModUnique(cursor, len, c / len + 1, c % len);
    }
  }

  /** The position `i` places after `start`, wrapping around a length `m`. */
  function WrapIndex(start: nat, i: nat, m: nat): (k: nat)
    requires start < m && i < m
    ensures k < m
  {
    if start + i < m then start + i else start + i - m
  }

  /** Stepping i < len places from a cursor wraps around at most once. */
  lemma {:induction false} SlotShift(cursor: nat, i: nat, len: nat)
    requires i < len
    ensures Slot(cursor + i, len) == WrapIndex(Slot(cursor, len), i, len)
    decreases cursor
  {
    if cursor >= len {
      SlotShift(cursor - len, i, len);
      assert Slot(cursor + i, len) == Slot(cursor - len + i, len);
    } else if cursor + i >= len {
      assert Slot(cursor + i, len) == Slot(cursor + i - len, len);
    }
  }

  /** The picks of one window, as read through the cursor's slots. */
  ghost predicate SlotWindow(shards: seq<Shard>, cursor: nat, picks: seq<Shard>) {
    && |shards| > 0
    && |picks| == |shards|
    && forall i :: 0 <= i < |picks| ==> picks[i] == shards[Slot(cursor + i, |shards|)]
  }

  lemma RoundRobinSlotWindow(e: ShardTableEntry)
    requires |e.shards| > 0
    ensures SlotWindow(e.shards, e.roundRobinIdx, RoundRobinPicks(e, |e.shards|))
  {
    forall i | 0 <= i < |e.shards|
      ensures RoundRobinPicks(e, |e.shards|)[i] == e.shards[Slot(e.roundRobinIdx + i, |e.shards|)]
    {
      RoundRobinPicksSlot(e, |e.shards|, i);
    }
  }

  /** A window read through the slots holds every shard. */
  lemma SlotWindowCovers(shards: seq<Shard>, cursor: nat, picks: seq<Shard>)
    requires SlotWindow(shards, cursor, picks)
    ensures forall s :: s in shards ==> s in picks
  {
    var m := |shards|;
    var start := Slot(cursor, m);
    forall s | s in shards
      ensures s in picks
    {
      var j :| 0 <= j < m && shards[j] == s;
      var i := if j >= start then j - start else j + m - start;
      SlotShift(cursor, i, m);
      assert picks[i] == s;
    }
  }

  /** A window read through the slots of a duplicate-free list repeats nothing. */
  lemma SlotWindowDistinct(shards: seq<Shard>, cursor: nat, picks: seq<Shard>)
    requires SlotWindow(shards, cursor, picks)
    requires StrictlyIncreasing(shards)
    ensures forall i, j :: 0 <= i < j < |picks| ==> picks[i] != picks[j]
  {
    var m := |shards|;
    var start := Slot(cursor, m);
    forall i, j | 0 <= i < j < m
      ensures picks[i] != picks[j]
    {
      SlotShift(cursor, i, m);
      SlotShift(cursor, j, m);
      var a := WrapIndex(start, i, m);
      var b := WrapIndex(start, j, m);
      assert a != b;
      assert shards[a].shardId != shards[b].shardId;
    }
  }

  /** Whatever the cursor, any window of as many calls as there are shards
      hands out every shard, and no shard twice. */
  lemma RoundRobinWindowFair(e: ShardTableEntry)
    requires ValidEntry(e)
    ensures forall s :: s in e.shards ==> s in RoundRobinPicks(e, |e.shards|)
    ensures forall i, j :: 0 <= i < j < |e.shards| ==>
              RoundRobinPicks(e, |e.shards|)[i] != RoundRobinPicks(e, |e.shards|)[j]
  {
    var picks := RoundRobinPicks(e, |e.shards|);
    RoundRobinSlotWindow(e);
    SlotWindowCovers(e.shards, e.roundRobinIdx, picks);
    SlotWindowDistinct(e.shards, e.roundRobinIdx, picks);
  }

  // ----- ShardTable -----

  /** The table, keyed by (index id, source id). */
  datatype ShardTable = ShardTable(table: map<(string, string), ShardTableEntry>)

  predicate ValidTable(t: ShardTable) {
    forall key :: key in t.table ==> ValidEntry(t.table[key])
  }

  /** The empty table. */
  function EmptyTable(): (t: ShardTable)
    ensures ValidTable(t)
    ensures forall indexId, sourceId :: !ContainsEntry(t, indexId, sourceId)
  {
    ShardTable(map[])
  }

  /** Whether the key has an entry; in a valid table that entry has a shard to hand out. */
  predicate ContainsEntry(t: ShardTable, indexId: string, sourceId: string): (b: bool)
    ensures b <==> (indexId, sourceId) in t.table.Keys
    ensures b && ValidTable(t) ==> |t.table[(indexId, sourceId)].shards| > 0
  {
    (indexId, sourceId) in t.table
  }

  function FindEntry(t: ShardTable, indexId: string, sourceId: string): (r: Option<ShardTableEntry>)
    ensures r.Some? <==> ContainsEntry(t, indexId, sourceId)
  {
    var key := (indexId, sourceId);
    if key in t.table then Some(t.table[key]) else None
  }

  /** Builds an entry from `shards` and stores it under the key, replacing
      any previous entry. Fails, leaving no new table, when no shard is open. */
  function InsertShards(t: ShardTable, indexId: string, sourceId: string, shards: seq<Shard>): (r: Result<ShardTable, EntryError>)
    ensures r.Ok? <==> exists s :: s in shards && IsOpen(s)
    ensures r.Ok? ==> NewEntry(shards).Ok? && FindEntry(r.value, indexId, sourceId) == Some(NewEntry(shards).value)
    ensures r.Ok? ==> forall s :: s in FindEntry(r.value, indexId, sourceId).value.shards ==> s in shards
    ensures r.Ok? ==> var e := FindEntry(r.value, indexId, sourceId).value;
                      e.roundRobinIdx == 0 && IdSet(e.shards) == OpenIds(shards) && ValidEntry(e)
    ensures r.Ok? ==> forall i, s :: (i, s) != (indexId, sourceId) ==> FindEntry(r.value, i, s) == FindEntry(t, i, s)
    ensures r.Ok? && ValidTable(t) ==> ValidTable(r.value)
  {
    match NewEntry(shards)
    case Err(err) => Err(err)
    case Ok(entry) => Ok(ShardTable(t.table[(indexId, sourceId) := entry]))
  }

  /** A producer's pick: look up the entry for the key and take its next shard
      round-robin; the advanced cursor stays in the table. */
  function NextShardFor(t: ShardTable, indexId: string, sourceId: string): (r: Option<(Shard, ShardTable)>)
    requires ValidTable(t)
    ensures r.Some? <==> ContainsEntry(t, indexId, sourceId)
    ensures r.Some? ==> r.value.0 in FindEntry(t, indexId, sourceId).value.shards
    ensures r.Some? ==> var e := FindEntry(t, indexId, sourceId).value;
                        r.value.0 == e.shards[e.roundRobinIdx % |e.shards|] &&
                        FindEntry(r.value.1, indexId, sourceId) == Some(e.(roundRobinIdx := e.roundRobinIdx + 1))
    ensures r.Some? ==> ValidTable(r.value.1)
    ensures r.Some? ==> forall i, s :: ContainsEntry(r.value.1, i, s) <==> ContainsEntry(t, i, s)
    ensures r.Some? ==> forall i, s :: (i, s) != (indexId, sourceId) ==> FindEntry(r.value.1, i, s) == FindEntry(t, i, s)
  {
    match FindEntry(t, indexId, sourceId)
    case None => None
    case Some(entry) =>
      NextShardIsMod(entry);
      var (shard, advanced) := NextShardRoundRobin(entry);
      Some((shard, ShardTable(t.table[(indexId, sourceId) := advanced])))
  }

  /** Re-inserting shards for a key starts round-robin afresh: the next pick is
      the open shard with the smallest id, wherever the old cursor stood. */
  lemma InsertResetsRoundRobin(t: ShardTable, indexId: string, sourceId: string, shards: seq<Shard>)
    requires ValidTable(t)
    requires InsertShards(t, indexId, sourceId, shards).Ok?
    ensures var t' := InsertShards(t, indexId, sourceId, shards).value;
            var r := NextShardFor(t', indexId, sourceId);
            r.Some? && IsOpen(r.value.0) && r.value.0 in shards &&
            forall s :: s in shards && IsOpen(s) ==> r.value.0.shardId <= s.shardId
  {
    var t' := InsertShards(t, indexId, sourceId, shards).value;
    var e := NewEntry(shards).value;
    assert t'.table[(indexId, sourceId)] == e;
    var first := e.shards[0];
    forall s | s in shards && IsOpen(s)
      ensures first.shardId <= s.shardId
    {
      assert s.shardId in IdSet(e.shards);
      var x :| x in e.shards && x.shardId == s.shardId;
    }
  }

  /** Entry construction on the shape of the table test: whatever the
      payloads, [a, b, a, c] with ids 0, 1, 0 and c closed gives [a, b]. */
  lemma NewEntryDropsClosedAndDuplicates(a: Shard, b: Shard, c: Shard)
    requires a.shardId == 0 && b.shardId == 1
    requires IsOpen(a) && IsOpen(b) && !IsOpen(c)
    ensures NewEntry([a, b, a, c]) == Ok(ShardTableEntry([a, b], 0))
  {
    ExampleRetain(a, b, c);
    ExampleSort(a, b);
    ExampleDedup(a, b);
  }

  lemma ExampleRetain(a: Shard, b: Shard, c: Shard)
    requires IsOpen(a) && IsOpen(b) && !IsOpen(c)
    ensures RetainOpen([a, b, a, c]) == [a, b, a]
  {
    assert [a, b, a, c][1..] == [b, a, c];
    assert [b, a, c][1..] == [a, c];
    assert [a, c][1..] == [c];
    assert RetainOpen([c]) == [];
    assert RetainOpen([a, c]) == [a];
    assert RetainOpen([b, a, c]) == [b, a];
  }

  lemma ExampleSort(a: Shard, b: Shard)
    requires a.shardId == 0 && b.shardId == 1
    ensures SortById([a, b, a]) == [a, a, b]
  {
    assert [a, b, a][1..] == [b, a];
    assert [b, a][1..] == [a];
    assert SortById([a]) == [a];
    assert [a][1..] == [];
    assert InsertById(b, [a]) == [a] + InsertById(b, []);
    assert SortById([b, a]) == [a, b];
  }

  lemma ExampleDedup(a: Shard, b: Shard)
    requires a.shardId == 0 && b.shardId == 1
    ensures DedupById([a, a, b]) == [a, b]
  {
    assert [a, a, b][1..] == [a, b];
    assert [a, b][1..] == [b];
    assert DedupById([a, b]) == [a, b];
    assert DedupById([a, a, b]) == [a] + [a, b][1..];
  }

  /** Three calls on a fresh two-shard entry hand out the first, the second, the first. */
  lemma TwoShardRoundRobin(a: Shard, b: Shard)
    ensures RoundRobinPicks(ShardTableEntry([a, b], 0), 3) == [a, b, a]
  {
    var e := ShardTableEntry([a, b], 0);
    RoundRobinPicksSlot(e, 3, 0);
    RoundRobinPicksSlot(e, 3, 1);
    RoundRobinPicksSlot(e, 3, 2);
    assert Slot(2, 2) == 0;
  }

  /** The table test: shards 0 (open), 1 (open), 0 (open) and 2 (closed)
      give the entry [0, 1], and round-robin hands out 0, 1, 0. */
  lemma ShardTableExample()
    ensures var a := Shard("test-index:0", 0, "node-0", Open);
            var b := Shard("test-index:0", 1, "node-1", Open);
            var c := Shard("test-index:0", 2, "node-2", Closed);
            var r := InsertShards(EmptyTable(), "test-index", "test-source", [a, b, a, c]);
            r.Ok? && ContainsEntry(r.value, "test-index", "test-source") &&
            var e := FindEntry(r.value, "test-index", "test-source").value;
            e.shards == [a, b] && RoundRobinPicks(e, 3) == [a, b, a]
  {
    var a := Shard("test-index:0", 0, "node-0", Open);
    var b := Shard("test-index:0", 1, "node-1", Open);
    var c := Shard("test-index:0", 2, "node-2", Closed);
    NewEntryDropsClosedAndDuplicates(a, b, c);
    TwoShardRoundRobin(a, b);
  }
}
