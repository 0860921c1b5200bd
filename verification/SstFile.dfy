/** Building, reading and scanning SST files (src/sstable/sstable.rs). */
module SstFile {
  import opened Rows
  import opened Bloom
  import opened Memtable
  import opened SsTable

  // ---------- The builder ----------

  /** The builder's local variables. */
  datatype Building = Building(
    groups: seq<GroupMeta>, maxSeq: nat, chunkRows: nat,
    chunkMin: Option<Key>, chunkMax: Option<Key>, chunkMinTs: Option<I64>, chunkMaxTs: Option<I64>,
    lastKey: Option<Key>)

  function Pushed(b: Building): seq<GroupMeta>
    requires b.chunkMin.Some? && b.chunkMax.Some? && b.chunkMinTs.Some? && b.chunkMaxTs.Some?
  {
    b.groups + [GroupMeta(b.chunkRows, b.chunkMin.value, b.chunkMax.value, b.chunkMinTs.value, b.chunkMaxTs.value)]
  }

  /** One turn of the inner loop, after the order check. */
  function AddRow(b: Building, r: Row): Building {
    var ts := r.key.ts;
    var b' := Building(
      b.groups, if r.seqNo > b.maxSeq then r.seqNo else b.maxSeq, b.chunkRows + 1,
      if b.chunkMin.None? then Some(r.key) else b.chunkMin, Some(r.key),
      Some(if b.chunkMinTs.Some? && b.chunkMinTs.value < ts then b.chunkMinTs.value else ts),
      Some(if b.chunkMaxTs.Some? && b.chunkMaxTs.value > ts then b.chunkMaxTs.value else ts),
      Some(r.key));
    if b'.chunkRows == CHUNK_ROWS then b'.(groups := Pushed(b'), chunkRows := 0, chunkMin := None, chunkMax := None,
                                            chunkMinTs := None, chunkMaxTs := None)
    else b'
  }

  /** The open chunk's accumulators are its statistics. */
  ghost predicate OpenOk(b: Building, rest: seq<Row>) {
    && b.chunkRows == |rest| < CHUNK_ROWS
    && (rest == [] ==> b.chunkMin.None? && b.chunkMax.None? && b.chunkMinTs.None? && b.chunkMaxTs.None?)
    && (rest != [] ==>
          && b.chunkMin.Some? && b.chunkMax.Some? && b.chunkMinTs.Some? && b.chunkMaxTs.Some?
          && Describes(GroupMeta(|rest|, b.chunkMin.value, b.chunkMax.value, b.chunkMinTs.value, b.chunkMaxTs.value), rest))
  }

  /** After the rows `seen`: `done` are full chunks, `rest` the open one. */
  ghost predicate BuildingOk(b: Building, done: seq<Batch>, rest: seq<Row>, seen: seq<Row>) {
    && seen == Flatten(done) + rest && Full(done)
    && Described(b.groups, done) && OpenOk(b, rest)
    && b.maxSeq == MaxSeq(seen)
    && b.lastKey == if seen == [] then None else Some(seen[|seen| - 1].key)
  }

  lemma DescribesSnoc(g: GroupMeta, rest: seq<Row>, r: Row)
    requires Describes(g, rest)
    ensures Describes(GroupMeta(|rest| + 1, g.minKey, r.key, if g.minTs < r.key.ts then g.minTs else r.key.ts,
                                if g.maxTs > r.key.ts then g.maxTs else r.key.ts), rest + [r])
  {
    var low :| low in rest && low.key.ts == g.minTs;
    var high :| high in rest && high.key.ts == g.maxTs;
    assert low in rest + [r] && high in rest + [r] && r in rest + [r];
  }

  lemma DescribesOne(r: Row)
    ensures Describes(GroupMeta(1, r.key, r.key, r.key.ts, r.key.ts), [r])
  {
  }

  lemma OpenSnoc(b: Building, rest: seq<Row>, r: Row)
    requires OpenOk(b, rest) && |rest| + 1 < CHUNK_ROWS
    ensures OpenOk(AddRow(b, r), rest + [r])
  {
    if rest == [] {
      DescribesOne(r);
      assert rest + [r] == [r];
    } else {
      DescribesSnoc(GroupMeta(|rest|, b.chunkMin.value, b.chunkMax.value, b.chunkMinTs.value, b.chunkMaxTs.value), rest, r);
    }
  }

  /** The group pushed when the chunk is full describes it. */
  lemma FullSnoc(b: Building, rest: seq<Row>, r: Row)
    requires OpenOk(b, rest) && |rest| + 1 == CHUNK_ROWS
    ensures var b' := AddRow(b, r);
            && OpenOk(b', []) && |b'.groups| == |b.groups| + 1 && b'.groups[..|b.groups|] == b.groups
            && Describes(b'.groups[|b.groups|], rest + [r])
  {
    DescribesSnoc(GroupMeta(|rest|, b.chunkMin.value, b.chunkMax.value, b.chunkMinTs.value, b.chunkMaxTs.value), rest, r);
  }

  lemma AddToOpen(b: Building, done: seq<Batch>, rest: seq<Row>, seen: seq<Row>, r: Row)
    requires BuildingOk(b, done, rest, seen) && |rest| + 1 < CHUNK_ROWS
    ensures BuildingOk(AddRow(b, r), done, rest + [r], seen + [r])
  {
    MaxSeqSnoc(seen, r);
    SeqAssoc(Flatten(done), rest, [r]);
    OpenSnoc(b, rest, r);
  }

  lemma AddToFull(b: Building, done: seq<Batch>, rest: seq<Row>, seen: seq<Row>, r: Row)
    requires BuildingOk(b, done, rest, seen) && |rest| + 1 == CHUNK_ROWS
    ensures BuildingOk(AddRow(b, r), done + [rest + [r]], [], seen + [r])
  {
    MaxSeqSnoc(seen, r);
    SeqAssoc(Flatten(done), rest, [r]);
    FullSnoc(b, rest, r);
    FlattenSnoc(done, rest + [r]);
    DescribedSnoc(b.groups, AddRow(b, r).groups, done, rest + [r]);
  }

  lemma DescribedSnoc(groups: seq<GroupMeta>, groups': seq<GroupMeta>, done: seq<Batch>, chunk: Batch)
    requires Described(groups, done) && |groups'| == |groups| + 1 && groups'[..|groups|] == groups
    requires Describes(groups'[|groups|], chunk)
    ensures Described(groups', done + [chunk])
  {
    forall i | 0 <= i < |done| + 1 ensures Describes(groups'[i], (done + [chunk])[i]) {
      if i < |done| { assert groups'[i] == groups[i] && Describes(groups[i], done[i]); }
    }
  }

  lemma AddRowOk(b: Building, done: seq<Batch>, rest: seq<Row>, seen: seq<Row>, r: Row)
    returns (done': seq<Batch>, rest': seq<Row>)
    requires BuildingOk(b, done, rest, seen)
    ensures BuildingOk(AddRow(b, r), done', rest', seen + [r])
  {
    if |rest| + 1 == CHUNK_ROWS {
      AddToFull(b, done, rest, seen, r);
      done', rest' := done + [rest + [r]], [];
    } else {
      AddToOpen(b, done, rest, seen, r);
      done', rest' := done, rest + [r];
    }
  }

  /** Pushing the last, shorter chunk completes the index of the whole file. */
  lemma FinishOk(b: Building, done: seq<Batch>, rest: seq<Row>, seen: seq<Row>)
    requires BuildingOk(b, done, rest, seen)
    ensures rest == [] ==> Described(b.groups, Cut(seen))
    ensures rest != [] ==> Described(Pushed(b), Cut(seen))
  {
    CutFull(done, rest);
    if rest != [] {
      forall i | 0 <= i < |done| + 1 ensures Describes(Pushed(b)[i], (done + [rest])[i]) {
        if i < |done| { assert Describes(b.groups[i], done[i]); }
      }
    }
  }

  function NonEmptyOnes(batches: seq<seq<Row>>): (r: seq<Batch>)
    ensures Flatten(r) == Flatten(batches)
  {
    if batches == [] then []
    else if batches[0] == [] then
      assert [] + Flatten(batches[1..]) == Flatten(batches[1..]);
      NonEmptyOnes(batches[1..])
    else
      var rest := NonEmptyOnes(batches[1..]);
      assert ([batches[0]] + rest)[1..] == rest;
      [batches[0]] + rest
  }

  /** The rows the builder walks over: the batches with rows, ordered by their first keys. */
  function BuildOrder(batches: seq<seq<Row>>): seq<Row> {
    Flatten(SortBatches(NonEmptyOnes(batches)))
  }

  lemma {:induction false} InsertPermutes(b: Batch, sorted: seq<Batch>)
    ensures multiset(InsertBatch(b, sorted)) == multiset{b} + multiset(sorted)
    ensures multiset(Flatten(InsertBatch(b, sorted))) == multiset(b) + multiset(Flatten(sorted))
  {
    if sorted == [] {
      assert [b] + [] == [b] && [b][1..] == [];
    } else if KeyLess(b[0].key, sorted[0][0].key) {
      assert ([b] + sorted)[1..] == sorted;
    } else {
      InsertPermutes(b, sorted[1..]);
      assert sorted == [sorted[0]] + sorted[1..];
      assert ([sorted[0]] + InsertBatch(b, sorted[1..]))[1..] == InsertBatch(b, sorted[1..]);
    }
  }

  lemma MultisetSum<T>(a: seq<T>, b: seq<T>)
    ensures multiset(a + b) == multiset(a) + multiset(b)
  {
  }

  /** Two halves with the same elements, and one more on either side. */
  lemma OneMore<T>(front: seq<T>, last: seq<T>, sorted: seq<T>, all: seq<T>, more: multiset<T>)
    requires all == front + last && multiset(sorted) == multiset(front) && more == multiset(last) + multiset(sorted)
    ensures more == multiset(all)
  {
    MultisetSum(front, last);
  }

  lemma {:induction false} SortPermutes(batches: seq<Batch>)
    ensures multiset(SortBatches(batches)) == multiset(batches)
    ensures multiset(Flatten(SortBatches(batches))) == multiset(Flatten(batches))
    decreases |batches|
  {
    if batches != [] {
      var front: seq<Batch>, last: Batch := batches[..|batches| - 1], batches[|batches| - 1];
      SortPermutes(front);
      InsertPermutes(last, SortBatches(front));
      SplitLast(batches, front, last);
      OneMore(front, [last], SortBatches(front), batches, multiset(SortBatches(batches)));
      OneMore(Flatten(front), last, Flatten(SortBatches(front)), Flatten(batches), multiset(Flatten(SortBatches(batches))));
    }
  }

  lemma SplitLast(batches: seq<Batch>, front: seq<Batch>, last: Batch)
    requires batches != [] && front == batches[..|batches| - 1] && last == batches[|batches| - 1]
    ensures batches == front + [last] && Flatten(batches) == Flatten(front) + last
  {
    FlattenSnoc(front, last);
    assert batches == front + [last];
  }

  /** No batch comes before one with a smaller first key. */
  ghost predicate ByFirstKey(batches: seq<Batch>) {
    forall i, j | 0 <= i < j < |batches| :: !KeyLess(batches[j][0].key, batches[i][0].key)
  }

  lemma {:induction false} InsertByFirstKey(b: Batch, sorted: seq<Batch>)
    requires ByFirstKey(sorted)
    ensures ByFirstKey(InsertBatch(b, sorted))
  {
    if sorted == [] {
    } else if KeyLess(b[0].key, sorted[0][0].key) {
      forall j | 0 <= j < |sorted| ensures !KeyLess(sorted[j][0].key, b[0].key) {
        if KeyLess(sorted[j][0].key, b[0].key) { KeyTransitive(sorted[j][0].key, b[0].key, sorted[0][0].key); KeyIrreflexive(b[0].key); }
        KeyAsymmetric(b[0].key, sorted[0][0].key);
      }
    } else {
      var rest := InsertBatch(b, sorted[1..]);
      InsertByFirstKey(b, sorted[1..]);
      forall j | 0 <= j < |rest| ensures !KeyLess(rest[j][0].key, sorted[0][0].key) {
        assert rest[j] in rest;
        if rest[j] != b { var i :| 0 <= i < |sorted| - 1 && sorted[1..][i] == rest[j]; assert sorted[i + 1] == rest[j]; }
      }
    }
  }

  lemma {:induction false} SortByFirstKey(batches: seq<Batch>)
    ensures ByFirstKey(SortBatches(batches))
  {
    if batches != [] {
      SortByFirstKey(batches[..|batches| - 1]);
      InsertByFirstKey(batches[|batches| - 1], SortBatches(batches[..|batches| - 1]));
    }
  }

  lemma {:induction false} SameOnes(batches: seq<seq<Row>>)
    ensures forall b: Batch :: multiset(NonEmptyOnes(batches))[b] == multiset(batches)[b]
  {
    if batches != [] {
      SameOnes(batches[1..]);
      assert batches == [batches[0]] + batches[1..];
    }
  }

  /** The builder takes every batch with rows, as often as it is given, whole, and by its first key. */
  lemma BuildOrderMeans(batches: seq<seq<Row>>) returns (ordered: seq<Batch>)
    ensures BuildOrder(batches) == Flatten(ordered) && ByFirstKey(ordered)
    ensures forall b: Batch :: multiset(ordered)[b] == multiset(batches)[b]
    ensures multiset(BuildOrder(batches)) == multiset(Flatten(batches))
  {
    ordered := SortBatches(NonEmptyOnes(batches));
    SortPermutes(NonEmptyOnes(batches));
    SortByFirstKey(NonEmptyOnes(batches));
    SameOnes(batches);
  }

  lemma BuildPermutes(batches: seq<seq<Row>>)
    ensures multiset(BuildOrder(batches)) == multiset(Flatten(batches))
  {
    SortPermutes(NonEmptyOnes(batches));
  }

  /** Batches that are already in order are taken as they come: the case of memtables and merges. */
  lemma OrderedInput(batches: seq<seq<Row>>)
    requires Sorted(Flatten(batches))
    ensures BuildOrder(batches) == Flatten(batches)
  {
    var ones := NonEmptyOnes(batches);
    forall i, j | 0 <= i < j < |ones| ensures KeyLess(ones[i][0].key, ones[j][0].key) {
      assert ones[i][0] in ones[i] && ones[j][0] in ones[j];
      ChunkOrder(ones, i, j, ones[i][0], ones[j][0]);
    }
    SortedStays(ones);
  }

  lemma {:induction false} InsertLast(b: Batch, sorted: seq<Batch>)
    requires forall x: Batch | x in sorted :: !KeyLess(b[0].key, x[0].key)
    ensures InsertBatch(b, sorted) == sorted + [b]
  {
    if sorted != [] {
      assert sorted == [sorted[0]] + sorted[1..];
      assert sorted[0] in sorted && forall x: Batch | x in sorted[1..] :: x in sorted;
      InsertLast(b, sorted[1..]);
    }
  }

  lemma {:induction false} SortedStays(batches: seq<Batch>)
    requires Increasing(batches)
    ensures SortBatches(batches) == batches
  {
    if batches != [] {
      var n := |batches| - 1;
      assert batches == batches[..n] + [batches[n]];
      SortedStays(batches[..n]);
      forall x: Batch | x in batches[..n] ensures !KeyLess(batches[n][0].key, x[0].key) {
        var i :| 0 <= i < n && batches[i] == x;
        KeyAsymmetric(batches[i][0].key, batches[n][0].key);
      }
      InsertLast(batches[n], batches[..n]);
    }
  }

  // ---------- Reading a file ----------

  /** The reader hands rows out in pieces of at most `size`, across row group borders. */
  method ReadRows(rows: seq<Row>, size: nat) returns (batches: seq<Batch>)
    requires size > 0
    ensures Flatten(batches) == rows
  {
    batches := [];
    var rest := rows;
    while rest != []
      invariant Flatten(batches) + rest == rows
      decreases |rest|
    {
      var n := if |rest| < size then |rest| else size;
      FlattenSnoc(batches, rest[..n]);
      assert Flatten(batches) + rest == (Flatten(batches) + rest[..n]) + rest[n..];
      batches := batches + [rest[..n]];
      rest := rest[n..];
    }
  }

  ghost predicate CacheOk(cached: map<nat, seq<Batch>>, order: seq<nat>, chunks: seq<Batch>) {
    && (forall i, j | 0 <= i < j < |order| :: order[i] != order[j])
    && (forall g :: g in order <==> g in cached)
    && |order| <= GROUP_CACHE_CAP
    && forall g | g in cached :: g < |chunks| && Flatten(cached[g]) == chunks[g]
  }

  lemma CacheDrop(cached: map<nat, seq<Batch>>, order: seq<nat>, chunks: seq<Batch>)
    requires CacheOk(cached, order, chunks) && order != []
    ensures CacheOk(cached - {order[0]}, order[1..], chunks)
  {
    assert order == [order[0]] + order[1..];
    assert order[0] !in order[1..];
  }

  lemma CacheAdd(cached: map<nat, seq<Batch>>, order: seq<nat>, chunks: seq<Batch>, g: nat, batches: seq<Batch>)
    requires CacheOk(cached, order, chunks) && |order| < GROUP_CACHE_CAP
    requires g !in cached && g < |chunks| && Flatten(batches) == chunks[g]
    ensures CacheOk(cached[g := batches], order + [g], chunks)
  {
    assert forall x :: x in order + [g] <==> x in order || x == g;
  }

  /** The cache after a miss: the oldest group leaves when it is full, the new one joins at the back. */
  lemma CacheStep(cached: map<nat, seq<Batch>>, order: seq<nat>, chunks: seq<Batch>, g: nat, batches: seq<Batch>)
    requires CacheOk(cached, order, chunks) && g !in cached && g < |chunks| && Flatten(batches) == chunks[g]
    ensures |order| < GROUP_CACHE_CAP ==> CacheOk(cached[g := batches], order + [g], chunks)
    ensures |order| >= GROUP_CACHE_CAP ==> CacheOk((cached - {order[0]})[g := batches], order[1..] + [g], chunks)
  {
    if |order| >= GROUP_CACHE_CAP {
      CacheDrop(cached, order, chunks);
      CacheAdd(cached - {order[0]}, order[1..], chunks, g, batches);
    } else {
      CacheAdd(cached, order, chunks, g, batches);
    }
  }

  class SSTable {
    const id: nat
    const chunks: seq<Batch>        // the file's row groups
    const groups: seq<GroupMeta>    // its index
    const maxSeq: nat
    const minKey: Key
    const maxKey: Key
    const entryCount: nat
    const bloom: BloomFilter
    const readSize: nat             // rows per batch of the reader
    var cached: map<nat, seq<Batch>>
    var order: seq<nat>

    ghost function Rows(): seq<Row> {
      Flatten(chunks)
    }

    ghost predicate Valid()
      reads this, bloom, bloom.bits
    {
      && Sorted(Rows()) && chunks == Cut(Rows()) && Described(groups, chunks)
      && maxSeq == MaxSeq(Rows()) && entryCount == |Rows()| && readSize > 0
      && (Rows() != [] ==> minKey == Rows()[0].key && maxKey == Rows()[|Rows()| - 1].key)
      && bloom.Valid() && (forall r | r in Rows() :: r.key in bloom.inserted)
      && CacheOk(cached, order, chunks)
    }

    constructor (id: nat, rows: seq<Row>, groups: seq<GroupMeta>, maxSeq: nat, bloom: BloomFilter, readSize: nat)
      requires Sorted(rows) && Described(groups, Cut(rows)) && maxSeq == MaxSeq(rows) && readSize > 0
      requires bloom.Valid() && forall r | r in rows :: r.key in bloom.inserted
      ensures Valid() && Rows() == rows && this.id == id && this.bloom == bloom && this.maxSeq == maxSeq
    {
      var (low, high, count) := Bounds(groups);
      CutTiles(rows);
      BoundsExact(groups, Cut(rows));
      this.id, chunks, this.groups, this.maxSeq, this.bloom, this.readSize := id, Cut(rows), groups, maxSeq, bloom, readSize;
      minKey, maxKey, entryCount := low, high, count;
      cached, order := map[], [];
    }

    /** `get`: bounds, bloom filter, row group, batches. The cache changes, the answer does not. */
    method Get(key: Key) returns (found: Option<Row>)
      requires Valid()
      modifies `cached, `order
      ensures Valid() && found == Find(Rows(), key)
    {
      if entryCount == 0 || KeyLess(key, minKey) || KeyLess(maxKey, key) {
        OutsideBounds(Rows(), key);
        return None;
      }
      var maybe := bloom.Contains(key);
      if !maybe {
        FindNowhere(Rows(), key);
        return None;
      }
      var g := CandidateRowGroup(groups, chunks, key);
      if g.None? { return None; }
      found := FindInRowGroup(g.value, key);
    }

    method FindInRowGroup(g: nat, key: Key) returns (found: Option<Row>)
      requires Valid() && g < |chunks|
      modifies `cached, `order
      ensures Valid() && found == Find(chunks[g], key)
    {
      ChunkSorted(chunks, g);
      if g in cached {
        found := SearchBatches(cached[g], key);
        return;
      }
      var batches := ReadRows(chunks[g], readSize);
      Remember(g, batches);
      found := SearchBatches(batches, key);
    }

    method Remember(g: nat, batches: seq<Batch>)
      requires CacheOk(cached, order, chunks) && g !in cached && g < |chunks| && Flatten(batches) == chunks[g]
      modifies `cached, `order
      ensures CacheOk(cached, order, chunks)
    {
      CacheStep(cached, order, chunks, g, batches);
      if |order| >= GROUP_CACHE_CAP {
        cached, order := cached - {order[0]}, order[1..];
      }
      order := order + [g];
      cached := cached[g := batches];
    }

    /** The smallest and largest timestamp, from the index alone. */
    method TsExtent() returns (extent: Option<(I64, I64)>)
      requires Valid()
      ensures extent.None? <==> Rows() == []
      ensures extent.Some? ==> IsExtent(Rows(), extent.value.0, extent.value.1)
    {
      extent := ExtentOfGroups(groups);
      if groups != [] {
        assert Describes(groups[0], chunks[0]);
        ExtentExact(groups, chunks, extent.value.0, extent.value.1);
      }
    }
  }

  /** The smallest minimum and the largest maximum of the row groups. */
  ghost predicate IsGroupExtent(groups: seq<GroupMeta>, low: int, high: int) {
    && (exists j :: 0 <= j < |groups| && groups[j].minTs == low)
    && (exists j :: 0 <= j < |groups| && groups[j].maxTs == high)
    && forall j | 0 <= j < |groups| :: low <= groups[j].minTs && groups[j].maxTs <= high
  }

  method ExtentOfGroups(groups: seq<GroupMeta>) returns (extent: Option<(I64, I64)>)
    ensures extent.None? <==> groups == []
    ensures extent.Some? ==> IsGroupExtent(groups, extent.value.0, extent.value.1)
  {
    if groups == [] { return None; }
    var low, high := groups[0].minTs, groups[0].maxTs;
    ghost var lowAt, highAt := 0, 0;
    for i := 1 to |groups|
      invariant 0 <= lowAt < i && groups[lowAt].minTs == low
      invariant 0 <= highAt < i && groups[highAt].maxTs == high
      invariant forall j | 0 <= j < i :: low <= groups[j].minTs && groups[j].maxTs <= high
    {
      if groups[i].minTs < low { low, lowAt := groups[i].minTs, i; }
      if groups[i].maxTs > high { high, highAt := groups[i].maxTs, i; }
    }
    extent := Some((low, high));
  }

  ghost predicate IsExtent(rows: seq<Row>, low: int, high: int) {
    && (forall r | r in rows :: low <= r.key.ts <= high)
    && (exists r :: r in rows && r.key.ts == low)
    && (exists r :: r in rows && r.key.ts == high)
  }

  lemma ExtentExact(groups: seq<GroupMeta>, chunks: seq<Batch>, low: int, high: int)
    requires Described(groups, chunks) && groups != [] && IsGroupExtent(groups, low, high)
    ensures IsExtent(Flatten(chunks), low, high) && Flatten(chunks) != []
  {
    var a :| 0 <= a < |groups| && groups[a].minTs == low;
    var b :| 0 <= b < |groups| && groups[b].maxTs == high;
    assert Describes(groups[a], chunks[a]) && Describes(groups[b], chunks[b]);
    var p :| p in chunks[a] && p.key.ts == low;
    var q :| q in chunks[b] && q.key.ts == high;
    FlattenMember(chunks, p);
    FlattenMember(chunks, q);
    forall r | r in Flatten(chunks) ensures low <= r.key.ts <= high {
      FlattenMember(chunks, r);
      var i :| 0 <= i < |chunks| && r in chunks[i];
      assert Describes(groups[i], chunks[i]);
    }
  }

  lemma OutsideBounds(rows: seq<Row>, key: Key)
    requires Sorted(rows)
    requires rows == [] || KeyLess(key, rows[0].key) || KeyLess(rows[|rows| - 1].key, key)
    ensures Find(rows, key) == None
  {
    forall r | r in rows ensures r.key != key {
      var i :| 0 <= i < |rows| && rows[i] == r;
      KeyIrreflexive(key);
      if KeyLess(key, rows[0].key) && i > 0 { KeyTransitive(key, rows[0].key, rows[i].key); }
      if KeyLess(rows[|rows| - 1].key, key) && i < |rows| - 1 { KeyTransitive(rows[i].key, rows[|rows| - 1].key, key); }
    }
    FindNowhere(rows, key);
  }

  function TotalRows(groups: seq<GroupMeta>): nat {
    if groups == [] then 0 else groups[0].numRows + TotalRows(groups[1..])
  }

  /** `bounds`; without groups the keys are defaults. */
  function Bounds(groups: seq<GroupMeta>): (Key, Key, nat) {
    (if groups == [] then Key([], 0) else groups[0].minKey,
     if groups == [] then Key([], 0) else groups[|groups| - 1].maxKey,
     TotalRows(groups))
  }

  lemma {:induction false} BoundsExact(groups: seq<GroupMeta>, chunks: seq<Batch>)
    requires Described(groups, chunks)
    ensures var rows, b := Flatten(chunks), Bounds(groups);
            b.2 == |rows| && (rows != [] ==> b.0 == rows[0].key && b.1 == rows[|rows| - 1].key)
  {
    if groups != [] {
      assert Describes(groups[0], chunks[0]);
      forall i | 0 <= i < |groups| - 1 ensures Describes(groups[1..][i], chunks[1..][i]) {
        assert Describes(groups[i + 1], chunks[i + 1]);
      }
      BoundsExact(groups[1..], chunks[1..]);
    }
  }

  /** One row that is in order: into the bloom filter and into the open chunk. */
  method AddOne(b: Building, bloom: BloomFilter, r: Row, ghost done: seq<Batch>, ghost rest: seq<Row>, ghost seen: seq<Row>)
    returns (b': Building, ghost done': seq<Batch>, ghost rest': seq<Row>)
    requires BuildingOk(b, done, rest, seen) && Sorted(seen) && Inserted(bloom, seen)
    requires b.lastKey.Some? ==> KeyLess(b.lastKey.value, r.key)
    modifies bloom, bloom.bits
    ensures BuildingOk(b', done', rest', seen + [r]) && Sorted(seen + [r]) && Inserted(bloom, seen + [r])
  {
    bloom.Insert(r.key);
    SortedSnoc(seen, r);
    done', rest' := AddRowOk(b, done, rest, seen, r);
    b' := AddRow(b, r);
  }

  /** The inner loop of the builder; it stops at the first key that does not exceed the one before. */
  method AddBatch(b: Building, bloom: BloomFilter, batch: seq<Row>,
                  ghost done: seq<Batch>, ghost rest: seq<Row>, ghost seen: seq<Row>)
    returns (ok: bool, b': Building, ghost done': seq<Batch>, ghost rest': seq<Row>, ghost failedAt: nat)
    requires BuildingOk(b, done, rest, seen) && Sorted(seen) && Inserted(bloom, seen)
    modifies bloom, bloom.bits
    ensures ok ==> BuildingOk(b', done', rest', seen + batch) && Sorted(seen + batch) && Inserted(bloom, seen + batch)
    ensures !ok ==> failedAt < |batch| && EndsHigh(seen + batch[..failedAt], batch[failedAt])
  {
    b', done', rest', failedAt := b, done, rest, 0;
    ghost var now := seen;
    SeqAssoc(seen, [], []);
    for j := 0 to |batch|
      invariant now == seen + batch[..j] && Sorted(now) && BuildingOk(b', done', rest', now) && Inserted(bloom, now)
    {
      var r := batch[j];
      if b'.lastKey.Some? && !KeyLess(b'.lastKey.value, r.key) {
        return false, b', done', rest', j;
      }
      b', done', rest' := AddOne(b', bloom, r, done', rest', now);
      TakeNext(seen, batch, j);
      now := now + [r];
    }
    assert batch[..|batch|] == batch;
    ok := true;
  }

  ghost predicate Inserted(bloom: BloomFilter, rows: seq<Row>)
    reads bloom, bloom.bits
  {
    bloom.Valid() && forall r | r in rows :: r.key in bloom.inserted
  }

  ghost predicate EndsHigh(seen: seq<Row>, r: Row) {
    seen != [] && !KeyLess(seen[|seen| - 1].key, r.key)
  }

  /** The builder's two loops. */
  method BuildFile(batches: seq<seq<Row>>, id: nat, m: nat, k: nat, hash: Hash, readSize: nat)
    returns (sst: SSTable?)
    requires m >= 1024 && 1 <= k <= 64 && readSize > 0
    ensures sst != null <==> Sorted(BuildOrder(batches))
    ensures sst != null ==> fresh(sst) && sst.Valid() && sst.Rows() == BuildOrder(batches) && sst.id == id
  {
    var ordered := SortBatches(NonEmptyOnes(batches));
    var bloom := new BloomFilter(m, k, hash);
    var b := Building([], 0, 0, None, None, None, None, None);
    ghost var done: seq<Batch>, rest: seq<Row>, seen: seq<Row> := [], [], [];
    for i := 0 to |ordered|
      invariant seen == Flatten(ordered[..i])
      invariant Sorted(seen) && BuildingOk(b, done, rest, seen)
      invariant Inserted(bloom, seen) && fresh(bloom) && fresh(bloom.bits)
    {
      var batch := ordered[i];
      FlattenTake(ordered, i);
      var ok;
      ghost var failedAt;
      ok, b, done, rest, failedAt := AddBatch(b, bloom, batch, done, rest, seen);
      if !ok {
        NotSorted(ordered, i, failedAt);
        return null;
      }
      seen := seen + batch;
    }
    assert ordered[..|ordered|] == ordered;
    FinishOk(b, done, rest, Flatten(ordered));
    var groups := if b.chunkRows > 0 then Pushed(b) else b.groups;
    sst := new SSTable(id, Flatten(ordered), groups, b.maxSeq, bloom, readSize);
  }

  /**
   Builds a file. It is refused exactly if the batches, ordered by first key, do not form one strictly increasing
   sequence of keys; otherwise the file holds exactly that sequence.
   */
  method CreateFromBatches(batches: seq<seq<Row>>, id: nat, m: nat, k: nat, hash: Hash, readSize: nat)
    returns (sst: SSTable?)
    requires m >= 1024 && 1 <= k <= 64 && readSize > 0
    ensures sst != null <==> Sorted(BuildOrder(batches))
    ensures sst != null ==> fresh(sst) && sst.Valid() && sst.Rows() == BuildOrder(batches) && sst.id == id
    ensures sst != null ==> Sorted(sst.Rows()) && multiset(sst.Rows()) == multiset(Flatten(batches))
  {
    sst := BuildFile(batches, id, m, k, hash, readSize);
    BuildPermutes(batches);
  }

  lemma SortedSnoc(seen: seq<Row>, r: Row)
    requires Sorted(seen) && (seen != [] ==> KeyLess(seen[|seen| - 1].key, r.key))
    ensures Sorted(seen + [r])
  {
    forall i | 0 <= i < |seen| ensures KeyLess(seen[i].key, r.key) {
      if i < |seen| - 1 { KeyTransitive(seen[i].key, seen[|seen| - 1].key, r.key); }
    }
  }

  /** Two neighbours out of order, wherever in the batches, make the whole input unsorted. */
  lemma NotSorted(ordered: seq<Batch>, i: nat, j: nat)
    requires i < |ordered| && j < |ordered[i]|
    requires EndsHigh(Flatten(ordered[..i]) + ordered[i][..j], ordered[i][j])
    ensures !Sorted(Flatten(ordered))
  {
    var all, seen := Flatten(ordered), Flatten(ordered[..i]) + ordered[i][..j];
    FlattenConcat(ordered[..i], ordered[i..]);
    assert ordered == ordered[..i] + ordered[i..];
    assert ordered[i..][0] == ordered[i];
    assert all[|seen|] == ordered[i][j] && all[|seen| - 1] == seen[|seen| - 1];
  }
}
