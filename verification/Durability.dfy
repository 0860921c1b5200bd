/**
 Merging orphan logs over the bytes that are durable (src/memtable/memtable.rs:416-452, src/memtable/wal.rs:80-97): the
 merged rows go through the active log's buffered writer, and then the orphan log is removed.
 */
module Durability {
  import opened Rows
  import opened Wal
  import opened Memtable

  // ---------- What merging keeps ----------

  /**
   The memtable, which was opened with its first `first` rows, holds every newest row of `h`; and the last row it was
   given is newer than all others of its key.
   */
  ghost predicate Kept(h: set<Row>, log: seq<Row>, first: nat) {
    && first <= |log| && Covers(h, RowSet(log), I64_MIN)
    && (|log| > first ==>
          && IsNewest(h, log[|log| - 1])
          && forall i | 0 <= i < |log| - 1 && log[i].key == log[|log| - 1].key :: log[i].seqNo < log[|log| - 1].seqNo)
  }

  /** The rows of an orphan log whose keys have been dealt with. */
  ghost function Done(orphan: seq<Row>, todo: set<Key>): set<Row> {
    set r | r in orphan && r.key !in todo
  }

  ghost function OfKey(orphan: seq<Row>, k: Key): set<Row> {
    set r | r in orphan && r.key == k
  }

  lemma NewestHeld(h: set<Row>, log: seq<Row>, k: Key, r: Row)
    requires Covers(h, RowSet(log), I64_MIN) && r in h && r.key == k
    ensures k in NewestMap(log) && r.seqNo <= NewestMap(log)[k].seqNo && NewestMap(log)[k] in h
  {
    var n := NewestExists(h, r);
    assert n in RowSet(log);
    NewestIsLargest(log, n);
    assert NewestMap(log)[k] in RowSet(log);
  }

  /** A row may be skipped if the memtable holds one that is at least as new. */
  lemma SkipKeeps(h: set<Row>, log: seq<Row>, first: nat, orphan: seq<Row>, k: Key)
    requires Kept(h, log, first) && k in NewestMap(orphan) && k in NewestMap(log)
    requires NewestMap(log)[k].seqNo >= NewestMap(orphan)[k].seqNo
    requires Consistent(h + OfKey(orphan, k), I64_MIN)
    ensures Kept(h + OfKey(orphan, k), log, first)
  {
    var h', held := h + OfKey(orphan, k), NewestMap(log)[k];
    MapEntryIsNewest(log, k);
    forall r | r in OfKey(orphan, k) ensures r.seqNo <= held.seqNo { NewestIsLargest(orphan, r); }
    forall r | IsNewest(h', r) ensures r in RowSet(log) {
      if r in h { assert IsNewest(h, r); } else { assert held in h'; }
    }
    if |log| > first {
      var last := log[|log| - 1];
      assert last in RowSet(log);
      forall r | r in h' && r.key == last.key ensures r.seqNo <= last.seqNo {
        if r !in h { assert held in RowSet(log) && held in h; }
      }
    }
  }

  /** Otherwise it is written, and is then the newest of its key. */
  lemma WriteKeeps(h: set<Row>, log: seq<Row>, first: nat, orphan: seq<Row>, k: Key)
    requires Kept(h, log, first) && k in NewestMap(orphan)
    requires k in NewestMap(log) ==> NewestMap(log)[k].seqNo < NewestMap(orphan)[k].seqNo
    requires Consistent(h + OfKey(orphan, k), I64_MIN)
    ensures Kept(h + OfKey(orphan, k), log + [NewestMap(orphan)[k]], first)
  {
    var h', row := h + OfKey(orphan, k), NewestMap(orphan)[k];
    var log' := log + [row];
    MapEntryIsNewest(orphan, k);
    forall r | r in h' && r.key == k ensures r.seqNo <= row.seqNo {
      if r in h { NewestHeld(h, log, k, r); } else { NewestIsLargest(orphan, r); }
    }
    assert row in h';
    forall r | IsNewest(h', r) ensures r in RowSet(log') {
      if r.key == k { assert r == row; } else { assert IsNewest(h, r) && r in RowSet(log); }
    }
    assert RowSet(log') == RowSet(log) + {row};
    forall i | 0 <= i < |log| && log[i].key == k ensures log[i].seqNo < row.seqNo {
      NewestIsLargest(log, log[i]);
    }
  }

  // ---------- The merge ----------

  /** As long as fewer rows than the sync interval have been logged since, what was synced is what is synced. */
  ghost predicate SyncState(wal: Wal, synced: nat, ops: nat, more: int)
    reads wal
  {
    more >= 0 && (wal.Unsynced(ops + more) ==> wal.synced == synced && wal.opsSinceSync == ops + more)
  }

  /** One key: its row is written unless the memtable holds one that is at least as new. */
  method MergeRow(active: ColumnarMemtable, row: Row, ghost rows: seq<Row>, ghost h: set<Row>, ghost first: nat)
    requires active.Valid() && Kept(h, active.log, first)
    requires row.key in NewestMap(rows) && row == NewestMap(rows)[row.key]
    requires Consistent(h + OfKey(rows, row.key), I64_MIN)
    modifies active, active.shards, active.wal
    ensures active.Valid() && Kept(h + OfKey(rows, row.key), active.log, first)
    ensures SyncState(active.wal, old(active.wal.synced), old(active.wal.opsSinceSync), |active.log| - |old(active.log)|)
  {
    var held := active.Get(row.key);
    if held.Some? && held.value.seqNo >= row.seqNo {
      SkipKeeps(h, active.log, first, rows, row.key);
    } else {
      WriteKeeps(h, active.log, first, rows, row.key);
      var before := active.Write(row.key, row.seqNo, row.value);
    }
  }

  lemma PartConsistent(h: set<Row>, rows: seq<Row>, todo: set<Key>, k: Key)
    requires Consistent(h + RowSet(rows), I64_MIN) && k in todo
    ensures h + Done(rows, todo - {k}) == h + Done(rows, todo) + OfKey(rows, k)
    ensures Consistent(h + Done(rows, todo) + OfKey(rows, k), I64_MIN)
  {
    assert Done(rows, todo - {k}) == Done(rows, todo) + OfKey(rows, k);
    assert h + Done(rows, todo) + OfKey(rows, k) <= h + RowSet(rows);
  }

  lemma NothingDone(h: set<Row>, rows: seq<Row>)
    ensures h + Done(rows, NewestMap(rows).Keys) == h && Done(rows, {}) == RowSet(rows)
  {
    forall r | r in rows ensures r.key in NewestMap(rows) { NewestIsLargest(rows, r); }
  }

  method MergeKey(active: ColumnarMemtable, latest: map<Key, Row>, key: Key, ghost rows: seq<Row>, ghost h: set<Row>,
                  ghost todo: set<Key>, ghost first: nat, ghost synced: nat, ghost ops: nat, ghost before: nat)
    requires active.Valid() && Kept(h + Done(rows, todo), active.log, first)
    requires latest == NewestMap(rows) && key in todo && todo <= latest.Keys
    requires Consistent(h + RowSet(rows), I64_MIN) && SyncState(active.wal, synced, ops, |active.log| - before)
    modifies active, active.shards, active.wal
    ensures active.Valid() && Kept(h + Done(rows, todo - {key}), active.log, first)
    ensures SyncState(active.wal, synced, ops, |active.log| - before)
  {
    PartConsistent(h, rows, todo, key);
    NewestMapMeaning(rows, key);
    MergeRow(active, latest[key], rows, h + Done(rows, todo), first);
  }

  /** One orphan log: its newest rows, in any order, written to the memtable unless that holds newer ones. */
  method MergeOrphan(active: ColumnarMemtable, orphan: Bytes, ghost h: set<Row>, ghost first: nat)
    requires active.Valid() && Kept(h, active.log, first)
    requires Consistent(h + RowSet(RowsOfOps(Recovered(active.wal.crc, orphan))), I64_MIN)
    modifies active, active.shards, active.wal
    ensures active.Valid() && Kept(h + RowSet(RowsOfOps(Recovered(active.wal.crc, orphan))), active.log, first)
    ensures SyncState(active.wal, old(active.wal.synced), old(active.wal.opsSinceSync), |active.log| - |old(active.log)|)
  {
    var ops := active.wal.Recover(orphan);
    var rows := RowsOfOps(ops);
    var latest := LatestOf(rows);
    NothingDone(h, rows);
    MergeLatest(active, latest, rows, h, first, active.wal.synced, active.wal.opsSinceSync, |active.log|);
  }

  method MergeLatest(active: ColumnarMemtable, latest: map<Key, Row>, ghost rows: seq<Row>, ghost h: set<Row>,
                     ghost first: nat, ghost synced: nat, ghost ops: nat, ghost before: nat)
    requires active.Valid() && latest == NewestMap(rows) && Kept(h + Done(rows, latest.Keys), active.log, first)
    requires Consistent(h + RowSet(rows), I64_MIN) && SyncState(active.wal, synced, ops, |active.log| - before)
    modifies active, active.shards, active.wal
    ensures active.Valid() && Kept(h + Done(rows, {}), active.log, first)
    ensures SyncState(active.wal, synced, ops, |active.log| - before)
  {
    var todo := latest.Keys;
    while todo != {}
      invariant active.Valid() && todo <= latest.Keys
      invariant Kept(h + Done(rows, todo), active.log, first)
      invariant SyncState(active.wal, synced, ops, |active.log| - before)
      decreases |todo|
    {
      var key :| key in todo;
      MergeKey(active, latest, key, rows, h, todo, first, synced, ops, before);
      todo := todo - {key};
    }
  }

  /** Everything the orphan logs hold. */
  ghost function OrphanSet(crc: Checksum, orphans: seq<Bytes>): set<Row> {
    set o, r | o in orphans && r in RowsOfOps(Recovered(crc, o)) :: r
  }

  lemma OpenedKeeps(log: seq<Row>)
    ensures Kept(RowSet(log), log, |log|)
  {
  }

  /** What the memtable and the first `i` orphan logs hold. */
  ghost function Held(h: set<Row>, crc: Checksum, orphans: seq<Bytes>, i: nat): set<Row>
    requires i <= |orphans|
  {
    h + OrphanSet(crc, orphans[..i])
  }

  lemma HeldNext(h: set<Row>, crc: Checksum, orphans: seq<Bytes>, i: nat)
    requires i < |orphans| && Consistent(h + OrphanSet(crc, orphans), I64_MIN)
    ensures Held(h, crc, orphans, i + 1) == Held(h, crc, orphans, i) + RowSet(RowsOfOps(Recovered(crc, orphans[i])))
    ensures Consistent(Held(h, crc, orphans, i) + RowSet(RowsOfOps(Recovered(crc, orphans[i]))), I64_MIN)
  {
    assert orphans[..i + 1] == orphans[..i] + [orphans[i]];
    OrphanSnoc(crc, orphans[..i], orphans[i]);
    OrphanPart(crc, orphans, i + 1);
  }

  lemma OrphanSnoc(crc: Checksum, orphans: seq<Bytes>, o: Bytes)
    ensures OrphanSet(crc, orphans + [o]) == OrphanSet(crc, orphans) + RowSet(RowsOfOps(Recovered(crc, o)))
  {
  }

  lemma OrphanPart(crc: Checksum, orphans: seq<Bytes>, i: nat)
    requires i <= |orphans|
    ensures OrphanSet(crc, orphans[..i]) <= OrphanSet(crc, orphans)
  {
  }

  lemma HeldEnds(h: set<Row>, crc: Checksum, orphans: seq<Bytes>)
    ensures Held(h, crc, orphans, 0) == h && Held(h, crc, orphans, |orphans|) == h + OrphanSet(crc, orphans)
  {
    assert orphans[..|orphans|] == orphans && orphans[..0] == [];
  }

  method MergeNext(active: ColumnarMemtable, orphans: seq<Bytes>, i: nat, ghost h: set<Row>, ghost first: nat,
                   ghost synced: nat, ghost ops: nat)
    requires active.Valid() && i < |orphans| && Kept(Held(h, active.wal.crc, orphans, i), active.log, first)
    requires Consistent(h + OrphanSet(active.wal.crc, orphans), I64_MIN)
    requires SyncState(active.wal, synced, ops, |active.log| - first)
    modifies active, active.shards, active.wal
    ensures active.Valid() && Kept(Held(h, active.wal.crc, orphans, i + 1), active.log, first)
    ensures SyncState(active.wal, synced, ops, |active.log| - first)
  {
    HeldNext(h, active.wal.crc, orphans, i);
    MergeOrphan(active, orphans[i], Held(h, active.wal.crc, orphans, i), first);
  }

  method MergeEach(active: ColumnarMemtable, orphans: seq<Bytes>, ghost h: set<Row>, ghost first: nat,
                   ghost synced: nat, ghost ops: nat)
    requires active.Valid() && Kept(Held(h, active.wal.crc, orphans, 0), active.log, first)
    requires Consistent(h + OrphanSet(active.wal.crc, orphans), I64_MIN)
    requires SyncState(active.wal, synced, ops, |active.log| - first)
    modifies active, active.shards, active.wal
    ensures active.Valid() && Kept(Held(h, active.wal.crc, orphans, |orphans|), active.log, first)
    ensures SyncState(active.wal, synced, ops, |active.log| - first)
  {
    for i := 0 to |orphans|
      invariant active.Valid() && Kept(Held(h, active.wal.crc, orphans, i), active.log, first)
      invariant SyncState(active.wal, synced, ops, |active.log| - first)
    {
      MergeNext(active, orphans, i, h, first, synced, ops);
    }
  }

  /** All orphan logs, oldest first. */
  method MergeOrphans(active: ColumnarMemtable, orphans: seq<Bytes>)
    requires active.Valid()
    requires Consistent(RowSet(active.log) + OrphanSet(active.wal.crc, orphans), I64_MIN)
    modifies active, active.shards, active.wal
    ensures active.Valid()
    ensures Kept(RowSet(old(active.log)) + OrphanSet(active.wal.crc, orphans), active.log, |old(active.log)|)
    ensures SyncState(active.wal, old(active.wal.synced), old(active.wal.opsSinceSync), |active.log| - |old(active.log)|)
  {
    ghost var crc, h, first := active.wal.crc, RowSet(active.log), |active.log|;
    ghost var synced, ops := active.wal.synced, active.wal.opsSinceSync;
    OpenedKeeps(active.log);
    HeldEnds(h, crc, orphans);
    MergeEach(active, orphans, h, first, synced, ops);
  }

  // ---------- When the orphan logs may go ----------

  /** Wherever a crash cuts the active log, it alone still has every newest row of `h`. */
  ghost predicate Lossless(active: ColumnarMemtable, h: set<Row>)
    reads active, active.wal
  {
    forall cut | active.wal.flushed <= cut <= |active.wal.file| ::
      Covers(h, RowSet(RowsOfOps(Recovered(active.wal.crc, active.wal.file[..cut]))), I64_MIN)
  }

  lemma {:induction false} RowsCount(ops: seq<Operation>)
    ensures |RowsOfOps(ops)| == |ops|
  {
    if ops != [] { RowsCount(ops[1..]); }
  }

  lemma SomeUnsynced(batches: seq<seq<Operation>>, j: nat)
    requires j < |batches| && forall i | 0 <= i < |batches| :: batches[i] != []
    ensures |Flatten(batches[..j])| < |Flatten(batches)|
  {
    SplitBatches(batches, j);
    assert batches[j..][0] == batches[j];
  }

  /** What is synced is a proper part of the memtable's rows unless everything is synced. */
  lemma SyncedPart(base: seq<Operation>, batches: seq<seq<Operation>>, j: nat)
    requires j < |batches| && forall i | 0 <= i < |batches| :: batches[i] != []
    ensures |RowsOfOps(base)| < |RowsOfOps(base + Flatten(batches))|
    ensures |RowsOfOps(base + Flatten(batches[..j]))| < |RowsOfOps(base + Flatten(batches))|
    ensures RowsOfOps(base + Flatten(batches[..j])) <= RowsOfOps(base + Flatten(batches))
  {
    SomeUnsynced(batches, j);
    SplitBatches(batches, j);
    RowsCount(base);
    RowsCount(base + Flatten(batches));
    RowsCount(base + Flatten(batches[..j]));
    SplitRows(base, Flatten(batches[..j]), Flatten(batches[j..]));
  }

  lemma LastMissing(h: set<Row>, log: seq<Row>, first: nat, part: seq<Row>)
    requires Kept(h, log, first) && first < |log| && part <= log && |part| < |log|
    ensures !Covers(h, RowSet(part), I64_MIN)
  {
    var last := log[|log| - 1];
    forall i | 0 <= i < |part| ensures part[i] != last { assert part[i] == log[i]; }
  }

  lemma LosesSome(active: ColumnarMemtable, h: set<Row>)
    requires active.Valid() && Intact(active.wal.crc, active.wal.base) && AllRecoverable(active.wal.batches)
    requires Kept(h, active.log, |Recovered(active.wal.crc, active.wal.base)|)
    requires active.wal.synced < |active.wal.batches|
    ensures !Lossless(active, h)
  {
    var wal := active.wal;
    var base := Recovered(wal.crc, wal.base);
    wal.WorstCrash();
    RowsCount(base);
    SyncedPart(base, wal.batches, wal.synced);
    LastMissing(h, active.log, |base|, RowsOfOps(base + Flatten(wal.batches[..wal.synced])));
    assert !Covers(h, RowSet(RowsOfOps(Recovered(wal.crc, wal.file[..wal.flushed]))), I64_MIN);
  }

  lemma LosesNothing(active: ColumnarMemtable, h: set<Row>)
    requires active.Valid() && Intact(active.wal.crc, active.wal.base) && AllRecoverable(active.wal.batches)
    requires Kept(h, active.log, |Recovered(active.wal.crc, active.wal.base)|)
    requires active.wal.flushed == |active.wal.file|
    ensures Lossless(active, h)
  {
    var wal := active.wal;
    wal.WorstCrash();
    TakeAll(wal.batches);
    ghost var left := RowsOfOps(Recovered(wal.crc, wal.file[..wal.flushed]));
    assert left == active.log;
    forall cut | wal.flushed <= cut <= |wal.file|
      ensures Covers(h, RowSet(RowsOfOps(Recovered(wal.crc, wal.file[..cut]))), I64_MIN)
    {
      assert cut == wal.flushed;
    }
  }

  /**
   After the merge the orphan logs may go, whatever crash follows, exactly if the active log is synced to its end. Under
   `Always` it is; otherwise a sync before the removal is what it takes.
   */
  lemma LosslessIff(active: ColumnarMemtable, h: set<Row>)
    requires active.Valid() && Intact(active.wal.crc, active.wal.base) && AllRecoverable(active.wal.batches)
    requires Kept(h, active.log, |Recovered(active.wal.crc, active.wal.base)|)
    ensures Lossless(active, h) <==> active.wal.flushed == |active.wal.file|
    ensures active.wal.syncPolicy == Always ==> Lossless(active, h)
  {
    active.wal.WorstCrash();
    if active.wal.synced < |active.wal.batches| {
      LosesSome(active, h);
    } else {
      LosesNothing(active, h);
    }
  }

  // ---------- A row that is lost ----------

  lemma OneOrphan(crc: Checksum, orphan: Bytes, r: Row)
    requires RowsOfOps(Recovered(crc, orphan)) == [r]
    ensures OrphanSet(crc, [orphan]) == {r}
  {
    OrphanSnoc(crc, [], orphan);
    assert [] + [orphan] == [orphan] && OrphanSet(crc, []) == {};
  }

  /** A log of one row that covers just that row, and whose last row is newer than all others, is that row. */
  lemma OnlyRow(log: seq<Row>, r: Row)
    requires Kept({r}, log, 0)
    ensures log == [r]
  {
    assert IsNewest({r}, r) && r in RowSet(log);
    forall i | 0 <= i < |log| ensures log[i] == r { assert log[i] in RowSet(log); }
    assert log[0] == r;
  }

  lemma OpenedEmpty(crc: Checksum, log: seq<Row>, h: set<Row>)
    requires log == RowsOfOps(Recovered(crc, []))
    ensures log == [] && Recovered(crc, []) == [] && RowSet(log) + h == h
  {
  }

  /**
   The default policy, `Interval(100)`, loses rows: an orphan log holds one row, synced; opening merges it, and if it then
   removes the log, a crash before the next sync leaves an active log without the row.
   */
  method LosingRun(hash: Bytes -> nat, crc: Checksum, orphan: Bytes, r: Row)
    returns (active: ColumnarMemtable, reopened: ColumnarMemtable)
    requires RowsOfOps(Recovered(crc, orphan)) == [r]
    ensures active.Valid() && active.log == [r] && active.wal.syncPolicy == Interval(100)
    ensures active.wal.flushed == 0 && reopened.Valid() && reopened.wal.base == active.wal.file[..0] && reopened.log == []
  {
    active := new ColumnarMemtable(hash, 1, crc, Interval(100), []);
    OneOrphan(crc, orphan, r);
    OpenedEmpty(crc, active.log, {r});
    MergeOrphans(active, [orphan]);
    OnlyRow(active.log, r);
    ghost var k;
    reopened, k := active.OpenAfterCrash(0);
  }
}
