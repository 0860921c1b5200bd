/** The memtable as an object (src/memtable/columnar.rs): shards, counters and the log it appends to. */
module Memtable {
  import opened Rows
  import opened Wal
  import opened Columnar

  // ---------- Shards ----------

  type Shard = map<Bytes, seq<Cell>>

  function ShardFor(hash: Bytes -> nat, n: nat, tags: Bytes): (i: nat)
    requires n > 0
    ensures i < n
  {
    hash(tags) % n
  }

  /** The `i`-th of `n` shards holds just the series that belong there, all of them as the log has them. */
  ghost predicate ShardOk(shard: Shard, i: nat, n: nat, hash: Bytes -> nat, log: seq<Row>)
    requires n > 0
  {
    forall tags | tags in shard :: ShardFor(hash, n, tags) == i && shard[tags] == SeriesOf(log, tags) != []
  }

  /** Every row written is in the series of its tags, in order, in the shard the hash picks; nothing else is. */
  ghost predicate ShardsOk(ss: seq<Shard>, hash: Bytes -> nat, log: seq<Row>)
    requires ss != []
  {
    && (forall i | 0 <= i < |ss| :: ShardOk(ss[i], i, |ss|, hash, log))
    && (forall r | r in log :: r.key.tags in ss[ShardFor(hash, |ss|, r.key.tags)])
  }

  function CellsIn(shard: Shard, tags: Bytes): seq<Cell> {
    if tags in shard then shard[tags] else []
  }

  lemma CellsAreSeries(ss: seq<Shard>, hash: Bytes -> nat, log: seq<Row>, tags: Bytes)
    requires ss != [] && ShardsOk(ss, hash, log)
    ensures CellsIn(ss[ShardFor(hash, |ss|, tags)], tags) == SeriesOf(log, tags)
  {
    SeriesMembers(log, tags);
    if SeriesOf(log, tags) != [] {
      assert SeriesOf(log, tags)[0] in SeriesOf(log, tags);
      assert RowAt(tags, SeriesOf(log, tags)[0]) in log;
    }
  }

  lemma GrownShard(shard: Shard, i: nat, n: nat, hash: Bytes -> nat, log: seq<Row>, r: Row)
    requires n > 0 && ShardOk(shard, i, n, hash, log) && i == ShardFor(hash, n, r.key.tags)
    requires CellsIn(shard, r.key.tags) == SeriesOf(log, r.key.tags)
    ensures ShardOk(shard[r.key.tags := CellsIn(shard, r.key.tags) + [CellOf(r)]], i, n, hash, log + [r])
  {
    SeriesSnoc(log, r, r.key.tags);
    forall t | t in shard && t != r.key.tags ensures SeriesOf(log + [r], t) == SeriesOf(log, t) { SeriesSnoc(log, r, t); }
  }

  lemma OtherShard(shard: Shard, i: nat, n: nat, hash: Bytes -> nat, log: seq<Row>, r: Row)
    requires n > 0 && ShardOk(shard, i, n, hash, log) && i != ShardFor(hash, n, r.key.tags)
    ensures ShardOk(shard, i, n, hash, log + [r])
  {
    forall t | t in shard ensures SeriesOf(log + [r], t) == SeriesOf(log, t) { SeriesSnoc(log, r, t); }
  }

  lemma InsertShard(ss: seq<Shard>, hash: Bytes -> nat, log: seq<Row>, r: Row)
    requires ss != [] && ShardsOk(ss, hash, log)
    ensures var i := ShardFor(hash, |ss|, r.key.tags);
            ShardsOk(ss[i := ss[i][r.key.tags := CellsIn(ss[i], r.key.tags) + [CellOf(r)]]], hash, log + [r])
  {
    var n, tags := |ss|, r.key.tags;
    var i := ShardFor(hash, n, tags);
    var ss' := ss[i := ss[i][tags := CellsIn(ss[i], tags) + [CellOf(r)]]];
    CellsAreSeries(ss, hash, log, tags);
    forall j | 0 <= j < n ensures ShardOk(ss'[j], j, n, hash, log + [r]) {
      if j == i { GrownShard(ss[i], i, n, hash, log, r); } else { OtherShard(ss[j], j, n, hash, log, r); }
    }
  }

  /** A frozen memtable has a single map. */
  function OneShard(tags: Bytes): nat {
    0
  }

  /** `series` holds the series of the first `i` shards. */
  ghost predicate Joined(series: Shard, ss: seq<Shard>, i: nat, log: seq<Row>)
    requires i <= |ss|
  {
    && (forall t | t in series :: series[t] == SeriesOf(log, t) != [])
    && (forall j, t | 0 <= j < i && t in ss[j] :: t in series)
  }

  lemma JoinShard(series: Shard, ss: seq<Shard>, i: nat, hash: Bytes -> nat, log: seq<Row>)
    requires i < |ss| && ShardsOk(ss, hash, log) && Joined(series, ss, i, log)
    ensures Joined(series + ss[i], ss, i + 1, log)
  {
    assert ShardOk(ss[i], i, |ss|, hash, log);
  }

  lemma AllJoined(series: Shard, ss: seq<Shard>, hash: Bytes -> nat, log: seq<Row>)
    requires ss != [] && ShardsOk(ss, hash, log) && Joined(series, ss, |ss|, log)
    ensures ShardsOk([series], OneShard, log)
  {
  }

  // ---------- Batches ----------

  /** `b` is the materialised series of its tags. */
  ghost predicate BatchFor(log: seq<Row>, b: Batch) {
    Materialised(b[0].key.tags, SeriesOf(log, b[0].key.tags), b)
  }

  /** A series in the memtable has rows, so its batch does too. */
  type Batch = b: seq<Row> | b != [] witness [Row(Key([], 0), 0, None)]

  /** Batches of different series, in key order of their first rows. */
  predicate Increasing(batches: seq<Batch>)
  {
    forall i, j | 0 <= i < j < |batches| :: KeyLess(batches[i][0].key, batches[j][0].key)
  }

  predicate DistinctTags(batches: seq<Batch>)
  {
    forall i, j | 0 <= i < j < |batches| :: batches[i][0].key.tags != batches[j][0].key.tags
  }

  ghost predicate HasBatch(batches: seq<Batch>, tags: Bytes) {
    exists b: Batch :: b in batches && b[0].key.tags == tags
  }

  /** One batch for every series. */
  ghost predicate AllSeries(log: seq<Row>, batches: seq<Batch>) {
    && (forall b | b in batches :: BatchFor(log, b))
    && (forall r | r in log :: HasBatch(batches, r.key.tags))
  }

  /** Stable insertion by first key: what `sort_by_key` computes. */
  function InsertBatch(b: Batch, sorted: seq<Batch>): (r: seq<Batch>)
    ensures forall x: Batch :: x in r <==> x == b || x in sorted
  {
    if sorted == [] then [b]
    else
      assert sorted == [sorted[0]] + sorted[1..];
      if KeyLess(b[0].key, sorted[0][0].key) then [b] + sorted
      else [sorted[0]] + InsertBatch(b, sorted[1..])
  }

  function SortBatches(batches: seq<Batch>): (r: seq<Batch>)
    ensures forall x: Batch :: x in r <==> x in batches
  {
    if batches == [] then []
    else
      assert batches == batches[..|batches| - 1] + [batches[|batches| - 1]];
      InsertBatch(batches[|batches| - 1], SortBatches(batches[..|batches| - 1]))
  }

  /** Every batch has a larger first key than `b`. */
  ghost predicate AllAfter(b: Batch, batches: seq<Batch>) {
    forall x: Batch | x in batches :: KeyLess(b[0].key, x[0].key)
  }

  lemma IncreasingCons(b: Batch, rest: seq<Batch>)
    ensures Increasing([b] + rest) <==> Increasing(rest) && AllAfter(b, rest)
  {
    if Increasing([b] + rest) {
      forall x: Batch | x in rest ensures KeyLess(b[0].key, x[0].key) {
        var i :| 0 <= i < |rest| && rest[i] == x;
        assert ([b] + rest)[i + 1] == x && ([b] + rest)[0] == b;
      }
      forall i, j | 0 <= i < j < |rest| ensures KeyLess(rest[i][0].key, rest[j][0].key) {
        assert ([b] + rest)[i + 1] == rest[i] && ([b] + rest)[j + 1] == rest[j];
      }
    }
    if Increasing(rest) && AllAfter(b, rest) {
      forall i, j | 0 <= i < j < |rest| + 1 ensures KeyLess(([b] + rest)[i][0].key, ([b] + rest)[j][0].key) {
        assert rest[j - 1] in rest;
      }
    }
  }

  lemma AfterBefore(b: Batch, first: Batch, rest: seq<Batch>)
    requires KeyLess(b[0].key, first[0].key) && AllAfter(first, rest)
    ensures AllAfter(b, [first] + rest)
  {
    forall x: Batch | x in [first] + rest ensures KeyLess(b[0].key, x[0].key) {
      if x != first { KeyTransitive(b[0].key, first[0].key, x[0].key); }
    }
  }

  lemma {:induction false} InsertIncreasing(b: Batch, sorted: seq<Batch>)
    requires Increasing(sorted)
    requires forall x: Batch | x in sorted :: x[0].key != b[0].key
    ensures Increasing(InsertBatch(b, sorted))
  {
    if sorted == [] {
    } else {
      var first: Batch, rest: seq<Batch> := sorted[0], sorted[1..];
      assert sorted == [first] + rest;
      IncreasingCons(first, rest);
      if KeyLess(b[0].key, first[0].key) {
        AfterBefore(b, first, rest);
        IncreasingCons(b, sorted);
      } else {
        KeyTotal(b[0].key, first[0].key);
        assert first in sorted;
        InsertIncreasing(b, rest);
        IncreasingCons(first, InsertBatch(b, rest));
      }
    }
  }

  lemma {:induction false} SortIncreasing(batches: seq<Batch>)
    requires DistinctTags(batches)
    ensures Increasing(SortBatches(batches))
  {
    if batches != [] {
      var n := |batches| - 1;
      assert batches == batches[..n] + [batches[n]];
      SortIncreasing(batches[..n]);
      forall x: Batch | x in SortBatches(batches[..n]) ensures x[0].key != batches[n][0].key {
        var i :| 0 <= i < n && batches[i] == x;
      }
      InsertIncreasing(batches[n], SortBatches(batches[..n]));
    }
  }

  lemma BatchSorted(log: seq<Row>, b: Batch)
    requires BatchFor(log, b)
    ensures Sorted(b) && forall r | r in b :: r.key.tags == b[0].key.tags
  {
    forall i | 0 <= i < |b| ensures b[i].key.tags == b[0].key.tags { assert b[i] in b; }
  }

  /** A row of a batch is the newest version of its key, and every newest version is in its series' batch. */
  lemma BatchRows(log: seq<Row>, b: Batch, r: Row)
    requires BatchFor(log, b) && r.key.tags == b[0].key.tags
    ensures r in b <==> r.key in NewestMap(log) && NewestMap(log)[r.key] == r
  {
    var tags := b[0].key.tags;
    ScanIsNewest(log, tags, r.key.ts);
    if r.key in NewestMap(log) && NewestMap(log)[r.key] == r {
      var c := Scan(SeriesOf(log, tags), r.key.ts).value;
      ScanFinds(SeriesOf(log, tags), r.key.ts);
      var q :| q in b && q.key.ts == c.ts;
      assert q == r;
    }
  }

  lemma {:induction false} FlattenSorted(log: seq<Row>, batches: seq<Batch>)
    requires Increasing(batches) && DistinctTags(batches)
    requires forall b | b in batches :: BatchFor(log, b)
    ensures Sorted(Flatten(batches))
    ensures batches != [] ==> forall r | r in Flatten(batches) :: r.key.tags == batches[0][0].key.tags
                                                                || KeyLess(batches[0][0].key, r.key)
  {
    if batches != [] {
      var b: Batch, rest: seq<Batch> := batches[0], batches[1..];
      assert batches == [b] + rest;
      assert b in batches && forall x | x in rest :: x in batches;
      BatchSorted(log, b);
      FlattenSorted(log, rest);
      forall p: Row, q: Row | p in b && q in Flatten(rest) ensures KeyLess(p.key, q.key) {
        TagsAbove(log, batches, p, q);
      }
      SortedConcat(b, Flatten(rest));
      forall q: Row | q in Flatten(rest) ensures KeyLess(b[0].key, q.key) {
        assert b[0] in b;
      }
    }
  }

  lemma SortedConcat(a: seq<Row>, b: seq<Row>)
    requires Sorted(a) && Sorted(b) && forall p, q | p in a && q in b :: KeyLess(p.key, q.key)
    ensures Sorted(a + b)
  {
    forall i, j | 0 <= i < j < |a + b| ensures KeyLess((a + b)[i].key, (a + b)[j].key) {
      if i < |a| <= j { assert a[i] in a && b[j - |a|] in b; }
    }
  }

  lemma TagsAbove(log: seq<Row>, batches: seq<Batch>, p: Row, q: Row)
    requires batches != [] && Increasing(batches) && DistinctTags(batches)
    requires forall b | b in batches :: BatchFor(log, b)
    requires p in batches[0] && q in Flatten(batches[1..])
    ensures KeyLess(p.key, q.key)
  {
    FlattenMember(batches[1..], q);
    var i :| 0 <= i < |batches[1..]| && q in batches[1..][i];
    BatchSorted(log, batches[0]);
    BatchSorted(log, batches[i + 1]);
    assert KeyLess(batches[0][0].key, batches[i + 1][0].key);
    assert batches[0][0].key.tags != batches[i + 1][0].key.tags;
  }

  /** Sorted series batches, concatenated, list exactly the newest-version map. */
  lemma BatchesList(log: seq<Row>, batches: seq<Batch>)
    requires Increasing(batches) && DistinctTags(batches) && AllSeries(log, batches)
    ensures Lists(Flatten(batches), NewestMap(log))
  {
    FlattenSorted(log, batches);
    forall r | r in Flatten(batches) ensures r.key in NewestMap(log) && NewestMap(log)[r.key] == r {
      FlattenMember(batches, r);
      var i :| 0 <= i < |batches| && r in batches[i];
      BatchSorted(log, batches[i]);
      BatchRows(log, batches[i], r);
    }
    forall k | k in NewestMap(log) ensures NewestMap(log)[k] in Flatten(batches) {
      NewestMapMeaning(log, k);
      var r := NewestMap(log)[k];
      assert r in log;
      var b: Batch :| b in batches && b[0].key.tags == r.key.tags;
      BatchRows(log, b, r);
      FlattenMember(batches, r);
    }
  }

  // ---------- Operations ----------

  /** The row an operation of the log stands for. */
  function RowOf(op: Operation): (r: Row)
    ensures r.key == op.key && r.seqNo == op.seqNo
    ensures if op.Delete? then r.value == None else r.value == Some(op.value)
  {
    if op.Delete? then Row(op.key, op.seqNo, None) else Row(op.key, op.seqNo, Some(op.value))
  }

  function RowsOfOps(ops: seq<Operation>): seq<Row> {
    if ops == [] then [] else [RowOf(ops[0])] + RowsOfOps(ops[1..])
  }

  /** What a write logs: an insert or a delete, never an update. */
  function OpFor(r: Row): (op: Operation)
    ensures RowOf(op) == r && !op.Update?
  {
    if r.value.Some? then Operation.Insert(r.key, r.seqNo, r.value.value) else Operation.Delete(r.key, r.seqNo)
  }

  function OpsFor(rows: seq<Row>): seq<Operation> {
    if rows == [] then [] else [OpFor(rows[0])] + OpsFor(rows[1..])
  }

  /** The replay of a log: one row per operation, in order, a tombstone for each delete. */
  lemma {:induction false} ReplayedRow(ops: seq<Operation>, i: nat)
    requires i < |ops|
    ensures |RowsOfOps(ops)| == |ops|
    ensures RowsOfOps(ops)[i] == Row(ops[i].key, ops[i].seqNo, if ops[i].Delete? then None else Some(ops[i].value))
  {
    if |ops| > 1 { ReplayedRow(ops[1..], if i > 0 then i - 1 else 0); }
  }

  /** What a batch logs: one operation per row, in order, a delete for each tombstone and an insert for every other row. */
  lemma {:induction false} LoggedOp(rows: seq<Row>, i: nat)
    requires i < |rows|
    ensures |OpsFor(rows)| == |rows|
    ensures OpsFor(rows)[i] == if rows[i].value.None? then Operation.Delete(rows[i].key, rows[i].seqNo)
                               else Operation.Insert(rows[i].key, rows[i].seqNo, rows[i].value.value)
  {
    if |rows| > 1 { LoggedOp(rows[1..], if i > 0 then i - 1 else 0); }
  }

  lemma {:induction false} OpsStandForRows(rows: seq<Row>)
    ensures RowsOfOps(OpsFor(rows)) == rows
  {
    if rows != [] {
      OpsStandForRows(rows[1..]);
      assert OpsFor(rows)[1..] == OpsFor(rows[1..]);
    }
  }

  lemma {:induction false} RowsOfConcat(a: seq<Operation>, b: seq<Operation>)
    ensures RowsOfOps(a + b) == RowsOfOps(a) + RowsOfOps(b)
  {
    if a == [] {
      assert a + b == b;
    } else {
      assert (a + b)[1..] == a[1..] + b;
      RowsOfConcat(a[1..], b);
    }
  }

  lemma RowsOfSnoc(ops: seq<Operation>, op: Operation)
    ensures RowsOfOps(ops + [op]) == RowsOfOps(ops) + [RowOf(op)]
  {
    RowsOfConcat(ops, [op]);
    assert [op][1..] == [];
  }

  /** Rows appended to what the log stands for. */
  lemma LoggedRows(before: seq<Operation>, batches: seq<seq<Operation>>, rows: seq<Row>)
    ensures RowsOfOps(before + Flatten(batches + [OpsFor(rows)])) == RowsOfOps(before + Flatten(batches)) + rows
  {
    FlattenSnoc(batches, OpsFor(rows));
    SeqAssoc(before, Flatten(batches), OpsFor(rows));
    RowsOfConcat(before + Flatten(batches), OpsFor(rows));
    OpsStandForRows(rows);
  }

  lemma SplitRows(before: seq<Operation>, first: seq<Operation>, rest: seq<Operation>)
    ensures RowsOfOps(before + (first + rest)) == RowsOfOps(before + first) + RowsOfOps(rest)
  {
    SeqAssoc(before, first, rest);
    RowsOfConcat(before + first, rest);
  }

  // ---------- Collecting batches shard by shard ----------

  /** The batches made so far are those of the series in the first `i` shards and of `done`, each once. */
  ghost predicate Collected(ss: seq<Shard>, log: seq<Row>, i: nat, done: set<Bytes>, batches: seq<Batch>)
    requires i <= |ss|
  {
    && DistinctTags(batches) && (forall b | b in batches :: BatchFor(log, b))
    && (forall b: Batch | b in batches :: b[0].key.tags in done || exists j :: 0 <= j < i && b[0].key.tags in ss[j])
    && (forall t | t in done :: HasBatch(batches, t))
    && (forall j, t | 0 <= j < i && t in ss[j] :: HasBatch(batches, t))
  }

  lemma HasBatchSnoc(batches: seq<Batch>, b: Batch, tags: Bytes)
    requires HasBatch(batches, tags) || b[0].key.tags == tags
    ensures HasBatch(batches + [b], tags)
  {
    if HasBatch(batches, tags) {
      var x: Batch :| x in batches && x[0].key.tags == tags;
      assert x in batches + [b];
    } else {
      assert b in batches + [b];
    }
  }

  lemma SomeMaterialised(tags: Bytes, cells: seq<Cell>, b: seq<Row>)
    requires Materialised(tags, cells, b) && cells != []
    ensures b != [] && b[0].key.tags == tags
  {
    var c := cells[0];
    assert c in cells;
    var r :| r in b && r.key.ts == c.ts;
    assert b[0] in b;
  }

  lemma NextBatch(ss: seq<Shard>, hash: Bytes -> nat, log: seq<Row>, i: nat, done: set<Bytes>,
                  batches: seq<Batch>, tags: Bytes, b: seq<Row>)
    requires i < |ss| && ShardsOk(ss, hash, log) && Collected(ss, log, i, done, batches)
    requires tags in ss[i] && tags !in done && Materialised(tags, ss[i][tags], b)
    ensures b != [] && Collected(ss, log, i, done + {tags}, batches + [b])
  {
    assert ShardFor(hash, |ss|, tags) == i;
    SomeMaterialised(tags, ss[i][tags], b);
    assert forall x: Batch | x in batches :: x[0].key.tags != tags;
    forall t | t in done + {tags} ensures HasBatch(batches + [b], t) { HasBatchSnoc(batches, b, t); }
    forall j, t | 0 <= j < i && t in ss[j] ensures HasBatch(batches + [b], t) { HasBatchSnoc(batches, b, t); }
  }

  lemma NextSeries(ss: seq<Shard>, hash: Bytes -> nat, log: seq<Row>, i: nat, todo: set<Bytes>, batches: seq<Batch>,
                   tags: Bytes, b: seq<Row>)
    requires i < |ss| && ShardsOk(ss, hash, log) && Collected(ss, log, i, ss[i].Keys - todo, batches)
    requires tags in todo && todo <= ss[i].Keys && Materialised(tags, ss[i][tags], b)
    ensures b != [] && Collected(ss, log, i, ss[i].Keys - (todo - {tags}), batches + [b])
  {
    NextBatch(ss, hash, log, i, ss[i].Keys - todo, batches, tags, b);
    assert ss[i].Keys - (todo - {tags}) == ss[i].Keys - todo + {tags};
  }

  lemma NextShard(ss: seq<Shard>, log: seq<Row>, i: nat, batches: seq<Batch>)
    requires i < |ss| && Collected(ss, log, i, ss[i].Keys, batches)
    ensures Collected(ss, log, i + 1, {}, batches)
  {
  }

  lemma AllCollected(ss: seq<Shard>, hash: Bytes -> nat, log: seq<Row>, batches: seq<Batch>)
    requires ss != [] && ShardsOk(ss, hash, log) && Collected(ss, log, |ss|, {}, batches)
    ensures AllSeries(log, batches)
  {
    forall r | r in log ensures HasBatch(batches, r.key.tags) {
      assert r.key.tags in ss[ShardFor(hash, |ss|, r.key.tags)];
    }
  }

  lemma TagsIdentify(batches: seq<Batch>, x: Batch, y: Batch)
    requires DistinctTags(batches) && x in batches && y in batches && x[0].key.tags == y[0].key.tags
    ensures x == y
  {
  }

  lemma SortedDistinct(batches: seq<Batch>, sorted: seq<Batch>)
    requires DistinctTags(batches) && Increasing(sorted) && forall x: Batch | x in sorted :: x in batches
    ensures DistinctTags(sorted)
  {
    forall i, j | 0 <= i < j < |sorted| ensures sorted[i][0].key.tags != sorted[j][0].key.tags {
      assert sorted[i] in sorted && sorted[j] in sorted;
      KeyIrreflexive(sorted[i][0].key);
      if sorted[i][0].key.tags == sorted[j][0].key.tags { TagsIdentify(batches, sorted[i], sorted[j]); }
    }
  }

  lemma SortedAllSeries(log: seq<Row>, batches: seq<Batch>)
    requires AllSeries(log, batches)
    ensures AllSeries(log, SortBatches(batches))
  {
    forall r | r in log ensures HasBatch(SortBatches(batches), r.key.tags) {
      var b: Batch :| b in batches && b[0].key.tags == r.key.tags;
      assert b in SortBatches(batches);
    }
  }

  // ---------- The active memtable ----------

  class ColumnarMemtable {
    const hash: Bytes -> nat          // `series_hash`; any function will do
    const shards: array<Shard>
    const wal: Wal
    var rowCount: nat
    var maxSeq: nat
    ghost var log: seq<Row>           // everything written, in order

    ghost predicate MemoryOk()
      reads this, shards
    {
      && shards.Length > 0 && ShardsOk(shards[..], hash, log)
      && rowCount == |log| && maxSeq == MaxSeq(log)
    }

    /** The rows in memory are those recovered when the log was opened and those logged since. */
    ghost predicate Valid()
      reads this, shards, wal
    {
      MemoryOk() && wal.Valid() && log == RowsOfOps(Recovered(wal.crc, wal.base) + Flatten(wal.batches))
    }

    /** Opens the memtable on whatever the disk holds of its log, replaying what can be recovered. */
    constructor (hash: Bytes -> nat, shardCount: nat, crc: Checksum, syncPolicy: SyncPolicy, disk: Bytes)
      ensures Valid() && fresh(shards) && fresh(wal) && this.hash == hash
      ensures wal.crc == crc && wal.syncPolicy == syncPolicy && wal.base == wal.file == disk && wal.batches == []
      ensures wal.synced == wal.opsSinceSync == 0
      ensures log == RowsOfOps(Recovered(crc, disk))
    {
      this.hash := hash;
      var file := new Wal(crc, syncPolicy, disk);
      wal := file;
      var count := 1;
      while count < shardCount
        invariant count > 0
        decreases shardCount - count
      {
        count := 2 * count;
      }
      shards := new Shard[count](_ => map[]);
      rowCount, maxSeq, log := 0, 0, [];
      new;
      var ops := wal.Recover(disk);
      ReplayAll(ops);
      SeqAssoc(ops, [], []);
    }

    method ReplayAll(ops: seq<Operation>)
      requires MemoryOk() && log == []
      modifies shards, `rowCount, `maxSeq, `log
      ensures MemoryOk() && log == RowsOfOps(ops)
    {
      for i := 0 to |ops|
        invariant MemoryOk() && log == RowsOfOps(ops[..i])
      {
        Replay(ops, i);
      }
      assert ops[..|ops|] == ops;
    }

    /** Adds one row and returns the value that was current for its key. */
    method InsertRow(tags: Bytes, ts: I64, seqNo: nat, value: Option<Bytes>) returns (before: Option<Bytes>)
      requires MemoryOk()
      modifies shards, `rowCount, `maxSeq, `log
      ensures MemoryOk() && log == old(log) + [Row(Key(tags, ts), seqNo, value)]
      ensures forall x :: before == Some(x) <==> HasValue(old(log), Key(tags, ts), x)
    {
      var r := Row(Key(tags, ts), seqNo, value);
      var i := ShardFor(hash, shards.Length, tags);
      var cells := CellsIn(shards[i], tags);
      CellsAreSeries(shards[..], hash, log, tags);
      var best := ScanSeries(cells, ts);
      ScanIsNewest(log, tags, ts);
      before := if best.Some? then best.value.value else None;
      HasValueMeans(log, Key(tags, ts), before);
      InsertShard(shards[..], hash, log, r);
      MaxSeqSnoc(log, r);
      shards[i] := shards[i][tags := cells + [Cell(ts, seqNo, value)]];
      log := log + [r];
      rowCount := rowCount + 1;
      maxSeq := if seqNo > maxSeq then seqNo else maxSeq;
    }

    method Replay(ops: seq<Operation>, i: nat)
      requires MemoryOk() && i < |ops| && log == RowsOfOps(ops[..i])
      modifies shards, `rowCount, `maxSeq, `log
      ensures MemoryOk() && log == RowsOfOps(ops[..i + 1])
    {
      var r := RowOf(ops[i]);
      RowsOfSnoc(ops[..i], ops[i]);
      assert ops[..i + 1] == ops[..i] + [ops[i]];
      var before := InsertRow(r.key.tags, r.key.ts, r.seqNo, r.value);
    }

    /** A point lookup: the newest version of the key, tombstone or not. */
    method Get(key: Key) returns (found: Option<Row>)
      requires MemoryOk()
      ensures found == Newest(log, key)
    {
      var i := ShardFor(hash, shards.Length, key.tags);
      CellsAreSeries(shards[..], hash, log, key.tags);
      var best := ScanSeries(CellsIn(shards[i], key.tags), key.ts);
      ScanIsNewest(log, key.tags, key.ts);
      found := if best.Some? then Some(RowAt(key.tags, best.value)) else None;
    }

    /** The whole batch goes to the log in one frame, then row by row into memory. */
    method WriteBatch(rows: seq<Row>)
      requires Valid()
      modifies this, shards, wal
      ensures Valid() && log == old(log) + rows
      ensures wal.batches == if rows == [] then old(wal.batches) else old(wal.batches) + [OpsFor(rows)]
    {
      var ops := OpsFor(rows);
      assert rows == [] <==> ops == [];
      LoggedRows(Recovered(wal.crc, wal.base), wal.batches, rows);
      SeqAssoc(log, [], []);
      wal.AppendBatch(ops);
      InsertAll(rows);
    }

    method InsertAll(rows: seq<Row>)
      requires MemoryOk()
      modifies shards, `rowCount, `maxSeq, `log
      ensures MemoryOk() && log == old(log) + rows
    {
      ghost var before := log;
      for i := 0 to |rows|
        invariant MemoryOk() && log == before + rows[..i]
      {
        var r := rows[i];
        var current := InsertRow(r.key.tags, r.key.ts, r.seqNo, r.value);
        TakeNext(before, rows, i);
      }
      assert rows[..|rows|] == rows;
    }

    method Write(key: Key, seqNo: nat, value: Option<Bytes>) returns (before: Option<Bytes>)
      requires Valid()
      modifies this, shards, wal
      ensures Valid() && log == old(log) + [Row(key, seqNo, value)]
      ensures wal.batches == old(wal.batches) + [OpsFor([Row(key, seqNo, value)])]
      ensures wal.Unsynced(old(wal.opsSinceSync) + 1) ==>
                wal.synced == old(wal.synced) && wal.opsSinceSync == old(wal.opsSinceSync) + 1
      ensures forall x :: before == Some(x) <==> HasValue(old(log), key, x)
    {
      var r := Row(key, seqNo, value);
      var op := OpFor(r);
      assert [r][1..] == [] && OpsFor([r]) == [op];
      LoggedRows(Recovered(wal.crc, wal.base), wal.batches, [r]);
      wal.AppendBatch([op]);
      before := InsertRow(key.tags, key.ts, seqNo, value);
    }

    /**
     A crash cuts the log somewhere behind what was synced, and the memtable is opened on what is left. It holds again
     everything the old one was opened with. If the old one was opened on an intact log, and logged only what the format
     can hold, it holds exactly the rows of the first `k` batches: a batch is there as a whole or not at all, and none
     that was synced is missing.
     */
    method OpenAfterCrash(cut: nat) returns (reopened: ColumnarMemtable, ghost k: nat)
      requires Valid() && wal.flushed <= cut <= |wal.file|
      ensures fresh(reopened) && reopened.Valid() && reopened.wal.base == wal.file[..cut]
      ensures reopened.log == RowsOfOps(Recovered(wal.crc, wal.file[..cut]))
      ensures RowsOfOps(Recovered(wal.crc, wal.base)) <= reopened.log
      ensures Intact(wal.crc, wal.base) && AllRecoverable(wal.batches) ==>
                && wal.synced <= k <= |wal.batches|
                && reopened.log == RowsOfOps(Recovered(wal.crc, wal.base) + Flatten(wal.batches[..k]))
                && log == reopened.log + RowsOfOps(Flatten(wal.batches[k..]))
    {
      reopened := new ColumnarMemtable(hash, shards.Length, wal.crc, wal.syncPolicy, wal.file[..cut]);
      k := 0;
      ghost var grown := wal.CrashKeepsBase(cut);
      RowsOfConcat(Recovered(wal.crc, wal.base), grown);
      if Intact(wal.crc, wal.base) && AllRecoverable(wal.batches) {
        k := wal.CrashLoss(cut);
        SplitRows(Recovered(wal.crc, wal.base), Flatten(wal.batches[..k]), Flatten(wal.batches[k..]));
      }
    }

    method CollectShard(i: nat, before: seq<Batch>) returns (batches: seq<Batch>)
      requires MemoryOk() && i < shards.Length && Collected(shards[..], log, i, {}, before)
      ensures Collected(shards[..], log, i + 1, {}, batches)
    {
      ghost var ss := shards[..];
      var shard := shards[i];
      assert ss[i] == shard;
      batches := before;
      var todo := shard.Keys;
      while todo != {}
        invariant todo <= shard.Keys
        invariant Collected(ss, log, i, shard.Keys - todo, batches)
        decreases |todo|
      {
        var tags :| tags in todo;
        var b := MaterializeSeries(tags, shard[tags]);
        NextSeries(ss, hash, log, i, todo, batches, tags, b);
        batches := batches + [b];
        todo := todo - {tags};
      }
      assert shard.Keys - todo == shard.Keys;
      NextShard(ss, log, i, batches);
    }

    /** Every series materialised, sorted by first key: a listing of the newest-version map. */
    method ToBatches() returns (batches: seq<Batch>)
      requires MemoryOk()
      ensures Lists(Flatten(batches), NewestMap(log))
    {
      batches := [];
      for i := 0 to shards.Length
        invariant Collected(shards[..], log, i, {}, batches)
      {
        batches := CollectShard(i, batches);
      }
      AllCollected(shards[..], hash, log, batches);
      SortIncreasing(batches);
      SortedAllSeries(log, batches);
      SortedDistinct(batches, SortBatches(batches));
      batches := SortBatches(batches);
      BatchesList(log, batches);
    }

    /**
     The log is closed first, so that a crash from then on loses none of the frozen rows: what is flushed is the whole file,
     and behind an intact old part it recovers to exactly them.
     */
    method Freeze() returns (frozen: FrozenColumnar)
      requires Valid()
      modifies wal`flushed, wal`synced
      ensures Valid() && wal.flushed == |wal.file| && wal.synced == |wal.batches|
      ensures fresh(frozen) && frozen.Valid() && frozen.log == log
      ensures Intact(wal.crc, wal.base) && AllRecoverable(wal.batches) ==>
                frozen.log == RowsOfOps(Recovered(wal.crc, wal.file[..wal.flushed]))
    {
      CloseLog();
      frozen := FreezeRows();
    }

    method CloseLog()
      requires Valid()
      modifies wal`flushed, wal`synced
      ensures Valid() && wal.flushed == |wal.file| && wal.synced == |wal.batches|
      ensures Intact(wal.crc, wal.base) && AllRecoverable(wal.batches) ==>
                log == RowsOfOps(Recovered(wal.crc, wal.file[..wal.flushed]))
    {
      wal.Close();
      assert wal.file[..wal.flushed] == wal.file;
      if Intact(wal.crc, wal.base) && AllRecoverable(wal.batches) { wal.WholeFile(); }
    }

    /** The series of all shards in one ordered map. */
    method FreezeRows() returns (frozen: FrozenColumnar)
      requires MemoryOk()
      ensures fresh(frozen) && frozen.Valid() && frozen.log == log
    {
      var series: Shard := map[];
      ghost var ss := shards[..];
      for i := 0 to shards.Length
        invariant Joined(series, ss, i, log)
      {
        assert shards[i] == ss[i];
        JoinShard(series, ss, i, hash, log);
        series := series + shards[i];
      }
      AllJoined(series, ss, hash, log);
      frozen := new FrozenColumnar(series, maxSeq, log);
    }
  }

  // ---------- The frozen memtable ----------

  ghost predicate Ascends(batches: seq<Batch>) {
    forall i, j | 0 <= i < j < |batches| :: BytesLess(batches[i][0].key.tags, batches[j][0].key.tags)
  }

  lemma AscendsIncreasing(batches: seq<Batch>)
    requires Ascends(batches)
    ensures Increasing(batches)
  {
  }

  ghost predicate AllBefore(batches: seq<Batch>, todo: set<Bytes>) {
    forall b: Batch, t | b in batches && t in todo :: BytesLess(b[0].key.tags, t)
  }

  lemma NextInOrder(batches: seq<Batch>, todo: set<Bytes>, b: Batch)
    requires Ascends(batches) && AllBefore(batches, todo) && b[0].key.tags in todo
    requires forall t | t in todo :: t == b[0].key.tags || BytesLess(b[0].key.tags, t)
    ensures Ascends(batches + [b]) && AllBefore(batches + [b], todo - {b[0].key.tags})
  {
    forall i | 0 <= i < |batches| ensures BytesLess(batches[i][0].key.tags, b[0].key.tags) {
      assert batches[i] in batches;
    }
  }

  /** The next key of the ordered map. */
  method LeastTags(todo: set<Bytes>) returns (tags: Bytes)
    requires todo != {}
    ensures tags in todo && forall t | t in todo :: t == tags || BytesLess(tags, t)
  {
    BytesOrder();
    ghost var least := Least(todo, BytesLess);
    tags :| tags in todo && forall t | t in todo :: t == tags || BytesLess(tags, t);
  }

  lemma SeriesNext(series: Shard, log: seq<Row>, batches: seq<Batch>, todo: set<Bytes>, tags: Bytes, b: seq<Row>)
    requires ShardsOk([series], OneShard, log) && tags in todo && todo <= series.Keys
    requires Collected([series], log, 0, series.Keys - todo, batches) && Ascends(batches) && AllBefore(batches, todo)
    requires forall t | t in todo :: t == tags || BytesLess(tags, t)
    requires Materialised(tags, series[tags], b)
    ensures b != [] && Collected([series], log, 0, series.Keys - (todo - {tags}), batches + [b])
    ensures Ascends(batches + [b]) && AllBefore(batches + [b], todo - {tags})
  {
    NextSeries([series], OneShard, log, 0, todo, batches, tags, b);
    CellsAreSeries([series], OneShard, log, tags);
    SomeMaterialised(tags, series[tags], b);
    NextInOrder(batches, todo, b);
  }

  lemma SeriesListed(series: Shard, log: seq<Row>, batches: seq<Batch>)
    requires ShardsOk([series], OneShard, log)
    requires Collected([series], log, 0, series.Keys, batches) && Ascends(batches)
    ensures Lists(Flatten(batches), NewestMap(log))
  {
    NextShard([series], log, 0, batches);
    AllCollected([series], OneShard, log, batches);
    AscendsIncreasing(batches);
    BatchesList(log, batches);
  }

  class FrozenColumnar {
    const series: Shard
    const maxSeq: nat
    ghost const log: seq<Row>
    var cached: Option<seq<Batch>>

    ghost predicate Valid()
      reads this
    {
      && ShardsOk([series], OneShard, log) && maxSeq == MaxSeq(log)
      && (cached.Some? ==> Lists(Flatten(cached.value), NewestMap(log)))
    }

    constructor (series: Shard, maxSeq: nat, ghost log: seq<Row>)
      requires ShardsOk([series], OneShard, log) && maxSeq == MaxSeq(log)
      ensures Valid() && this.log == log
    {
      this.series, this.maxSeq, this.log, cached := series, maxSeq, log, None;
    }

    method Get(key: Key) returns (found: Option<Row>)
      requires Valid()
      ensures found == Newest(log, key)
    {
      CellsAreSeries([series], OneShard, log, key.tags);
      var best := ScanSeries(CellsIn(series, key.tags), key.ts);
      ScanIsNewest(log, key.tags, key.ts);
      found := if best.Some? then Some(RowAt(key.tags, best.value)) else None;
    }

    /** The series in key order, as the ordered map yields them. */
    method MaterializeAll() returns (batches: seq<Batch>)
      requires Valid()
      ensures Lists(Flatten(batches), NewestMap(log))
    {
      batches := [];
      var todo := series.Keys;
      while todo != {}
        invariant todo <= series.Keys
        invariant Collected([series], log, 0, series.Keys - todo, batches) && Ascends(batches)
        invariant AllBefore(batches, todo)
        decreases |todo|
      {
        var tags := LeastTags(todo);
        var b := MaterializeSeries(tags, series[tags]);
        SeriesNext(series, log, batches, todo, tags, b);
        batches := batches + [b];
        todo := todo - {tags};
      }
      assert series.Keys - todo == series.Keys;
      SeriesListed(series, log, batches);
    }

    /** Materialises once and answers from the cache afterwards. */
    method ToBatches() returns (batches: seq<Batch>)
      requires Valid()
      modifies `cached
      ensures Valid() && Lists(Flatten(batches), NewestMap(log))
      ensures cached == Some(batches) && (old(cached).Some? ==> cached == old(cached))
    {
      if cached.None? {
        var all := MaterializeAll();
        cached := Some(all);
      }
      batches := cached.value;
    }
  }
}
