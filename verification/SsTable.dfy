/**
 The SST file (src/sstable/sstable.rs): the rows cut into row groups with exact statistics, a point lookup through
 bounds, bloom filter, two binary searches and a small cache, and a range scan with several shortcuts. Each must agree
 with the plain walk over the rows.
 */
module SsTable {
  import opened Rows
  import opened Memtable

  const CHUNK_ROWS: nat := 8192
  const GROUP_CACHE_CAP: nat := 8

  // ---------- The plain walks ----------

  /** A linear lookup. */
  function Find(rows: seq<Row>, key: Key): Option<Row> {
    if rows == [] then None else if rows[0].key == key then Some(rows[0]) else Find(rows[1..], key)
  }

  lemma {:induction false} FindMeans(rows: seq<Row>, key: Key)
    ensures Find(rows, key).Some? ==> Find(rows, key).value in rows && Find(rows, key).value.key == key
    ensures Find(rows, key).None? ==> forall r | r in rows :: r.key != key
  {
    if rows != [] {
      assert rows == [rows[0]] + rows[1..];
      FindMeans(rows[1..], key);
    }
  }

  /** In sorted rows there is at most one answer. */
  lemma FindAt(rows: seq<Row>, i: nat)
    requires Sorted(rows) && i < |rows|
    ensures Find(rows, rows[i].key) == Some(rows[i])
  {
    FindMeans(rows, rows[i].key);
    var r := Find(rows, rows[i].key).value;
    var j :| 0 <= j < |rows| && rows[j] == r;
    SortedKeysDistinct(rows, i, j);
  }

  lemma FindNowhere(rows: seq<Row>, key: Key)
    requires forall r | r in rows :: r.key != key
    ensures Find(rows, key) == None
  {
    FindMeans(rows, key);
  }

  type TsRange = Option<(I64, I64)>

  predicate InTs(ts: I64, range: TsRange) {
    range.Some? ==> range.value.0 <= ts <= range.value.1
  }

  /** The filter a range scan stands for. */
  predicate Passes(k: Key, start: Key, end: Key, range: TsRange) {
    KeyLeq(start, k) && KeyLeq(k, end) && InTs(k.ts, range)
  }

  function Passing(rows: seq<Row>, start: Key, end: Key, range: TsRange): seq<Row> {
    if rows == [] then []
    else if Passes(rows[0].key, start, end, range) then [rows[0]] + Passing(rows[1..], start, end, range)
    else Passing(rows[1..], start, end, range)
  }

  lemma {:induction false} PassingConcat(a: seq<Row>, b: seq<Row>, start: Key, end: Key, range: TsRange)
    ensures Passing(a + b, start, end, range) == Passing(a, start, end, range) + Passing(b, start, end, range)
  {
    if a == [] {
      assert a + b == b;
    } else {
      assert (a + b)[1..] == a[1..] + b;
      PassingConcat(a[1..], b, start, end, range);
    }
  }

  lemma {:induction false} PassingAll(rows: seq<Row>, start: Key, end: Key, range: TsRange)
    requires forall r | r in rows :: Passes(r.key, start, end, range)
    ensures Passing(rows, start, end, range) == rows
  {
    if rows != [] {
      assert rows == [rows[0]] + rows[1..];
      PassingAll(rows[1..], start, end, range);
    }
  }

  lemma {:induction false} PassingNone(rows: seq<Row>, start: Key, end: Key, range: TsRange)
    requires forall r | r in rows :: !Passes(r.key, start, end, range)
    ensures Passing(rows, start, end, range) == []
  {
    if rows != [] {
      assert rows == [rows[0]] + rows[1..];
      PassingNone(rows[1..], start, end, range);
    }
  }

  lemma {:induction false} PassingMembers(rows: seq<Row>, start: Key, end: Key, range: TsRange)
    ensures forall r :: r in Passing(rows, start, end, range) <==> r in rows && Passes(r.key, start, end, range)
  {
    if rows != [] {
      assert rows == [rows[0]] + rows[1..];
      PassingMembers(rows[1..], start, end, range);
    }
  }

  lemma {:induction false} PassingSorted(rows: seq<Row>, start: Key, end: Key, range: TsRange)
    requires Sorted(rows)
    ensures Sorted(Passing(rows, start, end, range))
  {
    if rows != [] {
      PassingSorted(rows[1..], start, end, range);
      PassingMembers(rows[1..], start, end, range);
      var rest := Passing(rows[1..], start, end, range);
      forall j | 0 <= j < |rest| ensures KeyLess(rows[0].key, rest[j].key) {
        assert rest[j] in rest;
        var i :| 0 <= i < |rows| - 1 && rows[1..][i] == rest[j];
        assert KeyLess(rows[0].key, rows[i + 1].key);
      }
    }
  }

  /** What a range scan is to deliver: in key order, exactly the rows between both keys and, if given, both times. */
  ghost predicate ScanOf(scan: seq<Row>, rows: seq<Row>, start: Key, end: Key, range: TsRange) {
    && Sorted(scan)
    && forall r :: r in scan <==> r in rows && KeyLeq(start, r.key) && KeyLeq(r.key, end)
                                  && (range.None? || range.value.0 <= r.key.ts <= range.value.1)
  }

  lemma PassingScans(rows: seq<Row>, start: Key, end: Key, range: TsRange)
    requires Sorted(rows)
    ensures ScanOf(Passing(rows, start, end, range), rows, start, end, range)
  {
    PassingMembers(rows, start, end, range);
    PassingSorted(rows, start, end, range);
  }

  // ---------- Binary search ----------

  /** `true` for a prefix, `false` from there on. */
  ghost predicate Partitioned(n: nat, before: nat -> bool) {
    forall i, j | 0 <= i < j < n && before(j) :: before(i)
  }

  /** `partition_point`, and the loop of `search_batches`: how long the prefix is. */
  method PartitionPoint(n: nat, before: nat -> bool) returns (lo: nat)
    requires Partitioned(n, before)
    ensures lo <= n && (forall i | 0 <= i < lo :: before(i)) && (forall i | lo <= i < n :: !before(i))
  {
    lo := 0;
    var hi := n;
    while lo < hi
      invariant 0 <= lo <= hi <= n
      invariant forall i | 0 <= i < lo :: before(i)
      invariant forall i | hi <= i < n :: !before(i)
    {
      var mid := (lo + hi) / 2;
      if before(mid) { lo := mid + 1; } else { hi := mid; }
    }
  }

  // ---------- Row groups ----------

  datatype GroupMeta = GroupMeta(numRows: nat, minKey: Key, maxKey: Key, minTs: I64, maxTs: I64)

  /** The statistics are exact. */
  ghost predicate Describes(g: GroupMeta, rows: seq<Row>) {
    && rows != [] && g.numRows == |rows|
    && g.minKey == rows[0].key && g.maxKey == rows[|rows| - 1].key
    && (forall r | r in rows :: g.minTs <= r.key.ts <= g.maxTs)
    && (exists r :: r in rows && r.key.ts == g.minTs)
    && (exists r :: r in rows && r.key.ts == g.maxTs)
  }

  /** How the file writer cuts rows into row groups. */
  function Cut(rows: seq<Row>): seq<Batch> {
    if rows == [] then []
    else if |rows| <= CHUNK_ROWS then [rows]
    else [rows[..CHUNK_ROWS]] + Cut(rows[CHUNK_ROWS..])
  }

  lemma {:induction false} CutTiles(rows: seq<Row>)
    ensures Flatten(Cut(rows)) == rows
  {
    if |rows| > CHUNK_ROWS {
      CutTiles(rows[CHUNK_ROWS..]);
      assert rows == rows[..CHUNK_ROWS] + rows[CHUNK_ROWS..];
    } else if rows != [] {
      assert [rows][1..] == [] && rows + [] == rows;
    }
  }

  predicate Full(chunks: seq<Batch>) {
    forall c | c in chunks :: |c| == CHUNK_ROWS
  }

  /** Full chunks followed by a shorter rest are what cutting gives. */
  lemma {:induction false} CutFull(chunks: seq<Batch>, rest: seq<Row>)
    requires Full(chunks) && |rest| < CHUNK_ROWS
    ensures Cut(Flatten(chunks) + rest) == chunks + if rest == [] then [] else [rest]
  {
    if chunks == [] {
      assert Flatten(chunks) + rest == rest;
    } else {
      var all := Flatten(chunks) + rest;
      assert chunks == [chunks[0]] + chunks[1..];
      assert all == chunks[0] + (Flatten(chunks[1..]) + rest);
      CutFull(chunks[1..], rest);
      if Flatten(chunks[1..]) + rest == [] {
        assert all == chunks[0];
      } else {
        assert all[..CHUNK_ROWS] == chunks[0] && all[CHUNK_ROWS..] == Flatten(chunks[1..]) + rest;
      }
    }
  }

  /** Each row group's statistics are those of its chunk. */
  ghost predicate Described(groups: seq<GroupMeta>, chunks: seq<Batch>) {
    |groups| == |chunks| && forall i | 0 <= i < |groups| :: Describes(groups[i], chunks[i])
  }

  lemma SortedPart(a: seq<Row>, b: seq<Row>)
    requires Sorted(a + b)
    ensures Sorted(a) && Sorted(b)
    ensures forall p, q | p in a && q in b :: KeyLess(p.key, q.key)
  {
    forall i, j | 0 <= i < j < |a| ensures KeyLess(a[i].key, a[j].key) {
      assert (a + b)[i] == a[i] && (a + b)[j] == a[j];
    }
    forall i, j | 0 <= i < j < |b| ensures KeyLess(b[i].key, b[j].key) {
      assert (a + b)[|a| + i] == b[i] && (a + b)[|a| + j] == b[j];
    }
    forall p, q | p in a && q in b ensures KeyLess(p.key, q.key) {
      var i :| 0 <= i < |a| && a[i] == p;
      var j :| 0 <= j < |b| && b[j] == q;
      assert (a + b)[i] == p && (a + b)[|a| + j] == q;
    }
  }

  lemma {:induction false} ChunkSorted(chunks: seq<seq<Row>>, i: nat)
    requires Sorted(Flatten(chunks)) && i < |chunks|
    ensures Sorted(chunks[i])
  {
    SortedPart(chunks[0], Flatten(chunks[1..]));
    if i > 0 { ChunkSorted(chunks[1..], i - 1); }
  }

  /** Rows of an earlier chunk have smaller keys. */
  lemma {:induction false} ChunkOrder(chunks: seq<seq<Row>>, i: nat, j: nat, p: Row, q: Row)
    requires Sorted(Flatten(chunks)) && i < j < |chunks| && p in chunks[i] && q in chunks[j]
    ensures KeyLess(p.key, q.key)
  {
    SortedPart(chunks[0], Flatten(chunks[1..]));
    if i == 0 {
      assert chunks[1..][j - 1] == chunks[j];
      FlattenMember(chunks[1..], q);
    } else {
      ChunkOrder(chunks[1..], i - 1, j - 1, p, q);
    }
  }

  /** A key found in one chunk is found in the file; a key in no chunk is not in the file. */
  lemma FindInChunk(chunks: seq<seq<Row>>, i: nat, key: Key)
    requires Sorted(Flatten(chunks)) && i < |chunks|
    requires forall j, r | 0 <= j < |chunks| && j != i && r in chunks[j] :: r.key != key
    ensures Find(Flatten(chunks), key) == Find(chunks[i], key)
  {
    FindMeans(chunks[i], key);
    FindMeans(Flatten(chunks), key);
    if Find(chunks[i], key).Some? {
      var r := Find(chunks[i], key).value;
      FlattenMember(chunks, r);
      var k :| 0 <= k < |Flatten(chunks)| && Flatten(chunks)[k] == r;
      FindAt(Flatten(chunks), k);
    } else if Find(Flatten(chunks), key).Some? {
      FlattenMember(chunks, Find(Flatten(chunks), key).value);
    }
  }

  lemma FindInNone(chunks: seq<seq<Row>>, key: Key)
    requires forall j, r | 0 <= j < |chunks| && r in chunks[j] :: r.key != key
    ensures Find(Flatten(chunks), key) == None
  {
    FindMeans(Flatten(chunks), key);
    if Find(Flatten(chunks), key).Some? {
      FlattenMember(chunks, Find(Flatten(chunks), key).value);
    }
  }

  function RowBelow(batch: seq<Row>, key: Key): nat -> bool {
    (j: nat) => j < |batch| && KeyLess(batch[j].key, key)
  }

  /** `search_batches`: a binary search in each batch until one does not end below the key. */
  method SearchBatches(batches: seq<seq<Row>>, key: Key) returns (found: Option<Row>)
    requires Sorted(Flatten(batches))
    ensures found == Find(Flatten(batches), key)
  {
    for i := 0 to |batches|
      invariant forall j, r | 0 <= j < i && r in batches[j] :: KeyLess(r.key, key)
    {
      var batch := batches[i];
      ChunkSorted(batches, i);
      BelowPartitioned(batch, key);
      var lo := PartitionPoint(|batch|, RowBelow(batch, key));
      if lo < |batch| {
        forall j | 0 <= j < lo ensures KeyLess(batch[j].key, key) { assert RowBelow(batch, key)(j); }
        assert !RowBelow(batch, key)(lo);
        SearchEnds(batches, i, lo, key);
        return if batch[lo].key == key then Some(batch[lo]) else None;
      }
      forall r | r in batch ensures KeyLess(r.key, key) {
        var j :| 0 <= j < |batch| && batch[j] == r;
        assert RowBelow(batch, key)(j);
      }
    }
    forall j, r | 0 <= j < |batches| && r in batches[j] ensures r.key != key { KeyIrreflexive(key); }
    FindInNone(batches, key);
    return None;
  }

  lemma BelowPartitioned(batch: seq<Row>, key: Key)
    requires Sorted(batch)
    ensures Partitioned(|batch|, RowBelow(batch, key))
  {
    forall i, j | 0 <= i < j < |batch| && KeyLess(batch[j].key, key) ensures KeyLess(batch[i].key, key) {
      KeyTransitive(batch[i].key, batch[j].key, key);
    }
  }

  /** The first row not below the key settles the search for all later rows as well. */
  lemma SearchEnds(batches: seq<seq<Row>>, i: nat, lo: nat, key: Key)
    requires Sorted(Flatten(batches)) && i < |batches| && lo < |batches[i]|
    requires forall j, r | 0 <= j < i && r in batches[j] :: KeyLess(r.key, key)
    requires forall j | 0 <= j < lo :: KeyLess(batches[i][j].key, key)
    requires !KeyLess(batches[i][lo].key, key)
    ensures Find(Flatten(batches), key) == if batches[i][lo].key == key then Some(batches[i][lo]) else None
  {
    var batch := batches[i];
    ChunkSorted(batches, i);
    KeyTotal(batch[lo].key, key);
    KeyIrreflexive(key);
    forall j, r | 0 <= j < |batches| && j != i && r in batches[j] ensures r.key != key {
      if j > i { ChunkOrder(batches, i, j, batch[lo], r); KeyStep(key, batch[lo].key, r.key); }
    }
    FindInChunk(batches, i, key);
    if batch[lo].key == key {
      FindAt(batch, lo);
    } else {
      forall r | r in batch ensures r.key != key {
        var j :| 0 <= j < |batch| && batch[j] == r;
        if j > lo { KeyStep(key, batch[lo].key, r.key); }
      }
      FindNowhere(batch, key);
    }
  }

  /** `a <= b < c` leaves `a` and `c` different. */
  lemma KeyStep(a: Key, b: Key, c: Key)
    requires KeyLeq(a, b) && KeyLess(b, c)
    ensures KeyLess(a, c) && a != c
  {
    if a != b { KeyTransitive(a, b, c); }
    KeyIrreflexive(c);
  }

  // ---------- Choosing row groups ----------

  function MaxBelow(groups: seq<GroupMeta>, key: Key): nat -> bool {
    (i: nat) => i < |groups| && KeyLess(groups[i].maxKey, key)
  }

  function MinUpTo(groups: seq<GroupMeta>, key: Key): nat -> bool {
    (i: nat) => i < |groups| && KeyLeq(groups[i].minKey, key)
  }

  /** Rows of one chunk lie between its group's bounds. */
  lemma GroupBounds(groups: seq<GroupMeta>, chunks: seq<Batch>, i: nat, r: Row)
    requires Described(groups, chunks) && Sorted(Flatten(chunks)) && i < |chunks| && r in chunks[i]
    ensures KeyLeq(groups[i].minKey, r.key) && KeyLeq(r.key, groups[i].maxKey)
    ensures groups[i].minTs <= r.key.ts <= groups[i].maxTs
  {
    ChunkSorted(chunks, i);
    var j :| 0 <= j < |chunks[i]| && chunks[i][j] == r;
    assert Describes(groups[i], chunks[i]);
  }

  lemma GroupsAscend(groups: seq<GroupMeta>, chunks: seq<Batch>, i: nat, j: nat)
    requires Described(groups, chunks) && Sorted(Flatten(chunks)) && i < j < |chunks|
    ensures KeyLess(groups[i].maxKey, groups[j].minKey)
    ensures KeyLess(groups[i].maxKey, groups[j].maxKey) && KeyLess(groups[i].minKey, groups[j].minKey)
  {
    var p, q := chunks[i], chunks[j];
    assert Describes(groups[i], p) && Describes(groups[j], q);
    assert p[|p| - 1] in p && q[0] in q && q[|q| - 1] in q && p[0] in p;
    ChunkOrder(chunks, i, j, p[|p| - 1], q[0]);
    ChunkOrder(chunks, i, j, p[|p| - 1], q[|q| - 1]);
    ChunkOrder(chunks, i, j, p[0], q[0]);
  }

  lemma MaxPartitioned(groups: seq<GroupMeta>, chunks: seq<Batch>, key: Key)
    requires Described(groups, chunks) && Sorted(Flatten(chunks))
    ensures Partitioned(|groups|, MaxBelow(groups, key))
  {
    forall i, j | 0 <= i < j < |groups| && MaxBelow(groups, key)(j) ensures MaxBelow(groups, key)(i) {
      GroupsAscend(groups, chunks, i, j);
      KeyTransitive(groups[i].maxKey, groups[j].maxKey, key);
    }
  }

  lemma MinPartitioned(groups: seq<GroupMeta>, chunks: seq<Batch>, key: Key)
    requires Described(groups, chunks) && Sorted(Flatten(chunks))
    ensures Partitioned(|groups|, MinUpTo(groups, key))
  {
    forall i, j | 0 <= i < j < |groups| && MinUpTo(groups, key)(j) ensures MinUpTo(groups, key)(i) {
      GroupsAscend(groups, chunks, i, j);
      if groups[j].minKey != key { KeyTransitive(groups[i].minKey, groups[j].minKey, key); }
    }
  }

  /** `candidate_row_group`: the only group that can hold the key. */
  method CandidateRowGroup(groups: seq<GroupMeta>, ghost chunks: seq<Batch>, key: Key) returns (candidate: Option<nat>)
    requires Described(groups, chunks) && Sorted(Flatten(chunks))
    ensures candidate.Some? ==> candidate.value < |chunks|
    ensures candidate.Some? ==> Find(Flatten(chunks), key) == Find(chunks[candidate.value], key)
    ensures candidate.None? ==> Find(Flatten(chunks), key) == None
  {
    MaxPartitioned(groups, chunks, key);
    var i := PartitionPoint(|groups|, MaxBelow(groups, key));
    forall j, r | 0 <= j < |chunks| && j != i && r in chunks[j] ensures r.key != key {
      OtherGroups(groups, chunks, key, i, j, r);
    }
    if i == |groups| {
      FindInNone(chunks, key);
      return None;
    }
    FindInChunk(chunks, i, key);
    if KeyLeq(groups[i].minKey, key) { return Some(i); }
    forall r | r in chunks[i] ensures r.key != key {
      GroupBounds(groups, chunks, i, r);
      NotBelow(groups[i].minKey, key, r.key);
    }
    FindNowhere(chunks[i], key);
    return None;
  }

  lemma NotBelow(low: Key, key: Key, k: Key)
    requires !KeyLeq(low, key) && KeyLeq(low, k)
    ensures k != key
  {
  }

  lemma OtherGroups(groups: seq<GroupMeta>, chunks: seq<Batch>, key: Key, i: nat, j: nat, r: Row)
    requires Described(groups, chunks) && Sorted(Flatten(chunks)) && j < |chunks| && j != i && r in chunks[j]
    requires i <= |groups| && (forall x | 0 <= x < i :: MaxBelow(groups, key)(x))
    requires forall x | i <= x < |groups| :: !MaxBelow(groups, key)(x)
    ensures r.key != key
  {
    GroupBounds(groups, chunks, j, r);
    if j < i {
      assert MaxBelow(groups, key)(j);
      KeyStep(r.key, groups[j].maxKey, key);
    } else {
      assert !MaxBelow(groups, key)(i);
      KeyTotal(groups[i].maxKey, key);
      GroupsAscend(groups, chunks, i, j);
      KeyStep(key, groups[i].maxKey, groups[j].minKey);
      if r.key == key { KeyAsymmetric(key, groups[j].minKey); }
    }
  }

  /** No row of a group left out could pass the filter. */
  ghost predicate Selects(chunks: seq<Batch>, selected: seq<nat>, start: Key, end: Key, range: TsRange) {
    && (forall x, y | 0 <= x < y < |selected| :: selected[x] < selected[y])
    && (forall x | 0 <= x < |selected| :: selected[x] < |chunks|)
    && (forall j: nat, r | j < |chunks| && j !in selected && r in chunks[j] :: !Passes(r.key, start, end, range))
  }

  predicate TsOverlaps(g: GroupMeta, range: TsRange) {
    range.Some? ==> !(g.maxTs < range.value.0 || g.minTs > range.value.1)
  }

  lemma LeftOut(groups: seq<GroupMeta>, chunks: seq<Batch>, start: Key, end: Key, range: TsRange, j: nat, r: Row)
    requires Described(groups, chunks) && Sorted(Flatten(chunks)) && j < |chunks| && r in chunks[j]
    requires MaxBelow(groups, start)(j) || !MinUpTo(groups, end)(j) || !TsOverlaps(groups[j], range)
    ensures !Passes(r.key, start, end, range)
  {
    GroupBounds(groups, chunks, j, r);
    var k := r.key;
    if MaxBelow(groups, start)(j) {
      KeyStep(k, groups[j].maxKey, start);
      KeyAsymmetric(k, start);
    } else if !MinUpTo(groups, end)(j) {
      if KeyLeq(k, end) && k != end && groups[j].minKey != k { KeyTransitive(groups[j].minKey, k, end); }
    }
  }

  /**
   A group is read if its keys and its times reach into the bounds. If the scan ends before all groups, the first one is
   taken for the last one needed.
   */
  ghost predicate Reaches(groups: seq<GroupMeta>, start: Key, end: Key, range: TsRange, j: nat) {
    && j < |groups| && !KeyLess(groups[j].maxKey, start) && (j == 0 || KeyLeq(groups[j].minKey, end))
    && (range.None? || (range.value.0 <= groups[j].maxTs && groups[j].minTs <= range.value.1))
  }

  /** The first and the last place that the two partition points leave. */
  ghost predicate Span(groups: seq<GroupMeta>, start: Key, end: Key, first: nat, last: nat) {
    && (forall j: nat | j < |groups| :: j < first <==> KeyLess(groups[j].maxKey, start))
    && (forall j: nat | j < |groups| :: j > last <==> j > 0 && !KeyLeq(groups[j].minKey, end))
  }

  method FindSpan(groups: seq<GroupMeta>, ghost chunks: seq<Batch>, start: Key, end: Key) returns (first: nat, last: nat)
    requires Described(groups, chunks) && Sorted(Flatten(chunks)) && groups != []
    ensures Span(groups, start, end, first, last) && last < |groups|
  {
    MaxPartitioned(groups, chunks, start);
    MinPartitioned(groups, chunks, end);
    first := PartitionPoint(|groups|, MaxBelow(groups, start));
    var upTo := PartitionPoint(|groups|, MinUpTo(groups, end));
    last := if upTo == 0 then 0 else upTo - 1;
    forall j: nat | j < |groups|
      ensures j < first <==> KeyLess(groups[j].maxKey, start)
      ensures j < upTo <==> KeyLeq(groups[j].minKey, end)
    {
      assert MaxBelow(groups, start)(j) <==> KeyLess(groups[j].maxKey, start);
      assert MinUpTo(groups, end)(j) <==> KeyLeq(groups[j].minKey, end);
    }
  }

  method PickGroups(groups: seq<GroupMeta>, first: nat, last: nat, range: TsRange) returns (picked: seq<nat>)
    requires last < |groups| && first <= last
    ensures Rising(picked) && forall j: nat :: j in picked <==> first <= j <= last && TsOverlaps(groups[j], range)
  {
    picked := [];
    for i := first to last + 1
      invariant Rising(picked)
      invariant forall j: nat :: j in picked <==> first <= j < i && TsOverlaps(groups[j], range)
    {
      if TsOverlaps(groups[i], range) {
        forall x | 0 <= x < |picked| ensures picked[x] < i { assert picked[x] in picked; }
        picked := picked + [i];
      }
    }
  }

  /** Groups that do not reach into the bounds have nothing to give. */
  lemma ReachingSelects(groups: seq<GroupMeta>, chunks: seq<Batch>, start: Key, end: Key, range: TsRange, picked: seq<nat>)
    requires Described(groups, chunks) && Sorted(Flatten(chunks)) && Rising(picked)
    requires forall j: nat :: j in picked <==> Reaches(groups, start, end, range, j)
    ensures Selects(chunks, picked, start, end, range)
  {
    forall x | 0 <= x < |picked| ensures picked[x] < |chunks| { assert picked[x] in picked; }
    forall j: nat, r | j < |chunks| && j !in picked && r in chunks[j] ensures !Passes(r.key, start, end, range) {
      assert !Reaches(groups, start, end, range, j);
      LeftOut(groups, chunks, start, end, range, j, r);
    }
  }

  /** `select_row_groups`: two partition points and, with a timestamp range, a filter by extent. */
  method SelectRowGroups(groups: seq<GroupMeta>, ghost chunks: seq<Batch>, start: Key, end: Key, range: TsRange)
    returns (selected: Option<seq<nat>>)
    requires Described(groups, chunks) && Sorted(Flatten(chunks))
    ensures Selects(chunks, if selected.Some? then selected.value else [], start, end, range)
    ensures forall j: nat :: j in (if selected.Some? then selected.value else []) <==> Reaches(groups, start, end, range, j)
  {
    if groups == [] {
      ReachingSelects(groups, chunks, start, end, range, []);
      return None;
    }
    var first, last := FindSpan(groups, chunks, start, end);
    var picked := [];
    if first <= last { picked := PickGroups(groups, first, last, range); }
    ReachingSelects(groups, chunks, start, end, range, picked);
    return if picked == [] then None else Some(picked);
  }
}
