/**
 The sources of a version as the program walks them (src/memtable/memtable.rs:635-655, 737-771, 846-882): the active
 memtable, the immutable ones from the newest to the oldest, then the SSTs in the same order.
 */
module Walk {
  import opened Rows
  import opened Machine
  import opened WorkerSteps
  import opened Reads
  import opened SsTable
  import opened Query
  import Columnar
  import Compaction
  import Merge

  // ---------- The walk ----------

  lemma {:induction false} ReverseAt(ts: seq<Table>, i: nat)
    requires i < |ts|
    ensures |Reverse(ts)| == |ts| && Reverse(ts)[i] == ts[|ts| - 1 - i]
  {
    if |ts| > 1 { ReverseAt(ts[1..], if i < |ts| - 1 then i else 0); }
  }

  /** The order of the walk: the active memtable, then the frozen ones and the files, each from the latest to the first. */
  lemma NewestFirst(v: Live, i: nat)
    requires i < 1 + |v.imms| + |v.ssts|
    ensures |Sources(v)| == 1 + |v.imms| + |v.ssts|
    ensures Sources(v)[i] == if i == 0 then v.active
                             else if i <= |v.imms| then v.imms[|v.imms| - i]
                             else v.ssts[|v.ssts| - (i - |v.imms|)]
  {
    if v.imms != [] { ReverseAt(v.imms, if 0 < i <= |v.imms| then i - 1 else 0); }
    if v.ssts != [] { ReverseAt(v.ssts, if i > |v.imms| then i - |v.imms| - 1 else 0); }
  }

  /** One more turn of a loop that walks `ts` from its end. */
  lemma NextSource(before: seq<Table>, ts: seq<Table>, i: nat)
    requires i < |ts|
    ensures before + Reverse(ts[i..]) == before + Reverse(ts[i + 1..]) + [ts[i]]
  {
    assert ts[i..][0] == ts[i] && ts[i..][1..] == ts[i + 1..];
    SeqAssoc(before, Reverse(ts[i + 1..]), [ts[i]]);
  }

  lemma NoSource(before: seq<Table>, ts: seq<Table>)
    ensures before + Reverse(ts[|ts|..]) == before && ts[0..] == ts
  {
    assert ts[|ts|..] == [];
  }

  method BetterRow(t: Table, key: Key, best: Option<Row>) returns (best': Option<Row>)
    ensures best' == Visit(t, key, best)
  {
    best' := best;
    if MaxSeq(t.rows) > SeqOf(best) {
      var found := Lookup(t, key);
      if found.Some? { best' := found; }
    }
  }

  /** `get`'s loop: it replaces its answer without comparing numbers. */
  method LastFound(active: Table, imms: seq<Table>, ssts: seq<Table>, key: Key) returns (best: Option<Row>)
    ensures best == VisitAll([active] + Reverse(imms) + Reverse(ssts), key)
  {
    best := BetterRow(active, key, None);
    VisitSnoc([], active, key);
    assert [] + [active] == [active];
    NoSource([active], imms);
    for i := |imms| downto 0
      invariant best == VisitAll([active] + Reverse(imms[i..]), key)
    {
      NextSource([active], imms, i);
      VisitSnoc([active] + Reverse(imms[i + 1..]), imms[i], key);
      best := BetterRow(imms[i], key, best);
    }
    ghost var memory := [active] + Reverse(imms);
    NoSource(memory, ssts);
    for i := |ssts| downto 0
      invariant best == VisitAll(memory + Reverse(ssts[i..]), key)
    {
      NextSource(memory, ssts, i);
      VisitSnoc(memory + Reverse(ssts[i + 1..]), ssts[i], key);
      best := BetterRow(ssts[i], key, best);
    }
  }

  // ---------- The highest number ----------

  /** One round of `visible_seq`: sources whose highest number cannot beat what was found are skipped. */
  function SeqVisit(t: Table, k: Key, best: Option<nat>): Option<nat> {
    var floor, here := if best.Some? then best.value else 0, Lookup(t, k);
    if MaxSeq(t.rows) > floor && here.Some? then Some(if floor > here.value.seqNo then floor else here.value.seqNo) else best
  }

  function SeqVisitAll(ts: seq<Table>, k: Key): Option<nat> {
    if ts == [] then None else SeqVisit(ts[|ts| - 1], k, SeqVisitAll(ts[..|ts| - 1], k))
  }

  lemma SeqVisitSnoc(ts: seq<Table>, t: Table, k: Key)
    ensures SeqVisitAll(ts + [t], k) == SeqVisit(t, k, SeqVisitAll(ts, k))
  {
    assert (ts + [t])[..|ts|] == ts;
  }

  function SeqOption(r: Option<Row>): Option<nat> {
    if r.Some? then Some(r.value.seqNo) else None
  }

  /** Numbers start at one. */
  ghost predicate FromOne(ts: seq<Table>) {
    forall r | r in TableRows(ts) :: r.seqNo >= 1
  }

  lemma SkipIsRight(ts: seq<Table>, t: Table, k: Key)
    requires FromOne(ts + [t]) && SeqVisitAll(ts, k) == SeqOption(NewestOf(ts, k))
    ensures SeqVisit(t, k, SeqVisitAll(ts, k)) == SeqOption(NewestOf(ts + [t], k))
  {
    NewestOfSnoc(ts, t, k);
    LookupMeans(t, k);
    TableRowsSnoc(ts, t);
    if Lookup(t, k).Some? { assert Lookup(t, k).value in TableRows(ts + [t]); }
  }

  /** Skipping is right: the search ends with the highest number of the key, whatever the order of the sources. */
  lemma {:induction false} HighestIsNewest(ts: seq<Table>, k: Key)
    requires FromOne(ts)
    ensures SeqVisitAll(ts, k) == SeqOption(NewestOf(ts, k))
    decreases |ts|
  {
    if ts == [] {
      NewestMapMeaning([], k);
    } else {
      var front, last := ts[..|ts| - 1], ts[|ts| - 1];
      assert ts == front + [last];
      TableRowsSnoc(front, last);
      HighestIsNewest(front, k);
      SkipIsRight(front, last, k);
    }
  }

  method BetterSeq(t: Table, key: Key, best: Option<nat>) returns (best': Option<nat>)
    ensures best' == SeqVisit(t, key, best)
  {
    best' := best;
    if MaxSeq(t.rows) > (if best.Some? then best.value else 0) {
      var found := Lookup(t, key);
      if found.Some? {
        best' := Some(if best.Some? && best.value > found.value.seqNo then best.value else found.value.seqNo);
      }
    }
  }

  /** The active memtable is always asked. */
  lemma FirstSeq(active: Table, key: Key)
    requires FromOne([active])
    ensures SeqVisit(active, key, None) == SeqOption(Lookup(active, key))
  {
    LookupMeans(active, key);
    if Lookup(active, key).Some? { assert Lookup(active, key).value in TableRows([active]); }
  }

  lemma FromOneFirst(active: Table, rest: seq<Table>)
    requires FromOne([active] + rest)
    ensures FromOne([active])
  {
    assert active in [active] + rest;
  }

  /** `visible_seq`. */
  method HighestSeq(active: Table, imms: seq<Table>, ssts: seq<Table>, key: Key) returns (best: Option<nat>)
    requires FromOne([active] + Reverse(imms) + Reverse(ssts))
    ensures best == SeqOption(NewestOf([active] + Reverse(imms) + Reverse(ssts), key))
  {
    ghost var memory := [active] + Reverse(imms);
    SeqAssoc([active], Reverse(imms), Reverse(ssts));
    FromOneFirst(active, Reverse(imms) + Reverse(ssts));
    FirstSeq(active, key);
    var here := Lookup(active, key);
    best := if here.Some? then Some(here.value.seqNo) else None;
    best := WalkSeqs(imms, key, best, [active]);
    best := WalkSeqs(ssts, key, best, memory);
    HighestIsNewest(memory + Reverse(ssts), key);
  }

  method WalkSeqs(ts: seq<Table>, key: Key, best: Option<nat>, ghost before: seq<Table>) returns (best': Option<nat>)
    requires best == SeqVisitAll(before, key)
    ensures best' == SeqVisitAll(before + Reverse(ts), key)
  {
    best' := best;
    NoSource(before, ts);
    for i := |ts| downto 0
      invariant best' == SeqVisitAll(before + Reverse(ts[i..]), key)
    {
      NextSource(before, ts, i);
      SeqVisitSnoc(before + Reverse(ts[i + 1..]), ts[i], key);
      best' := BetterSeq(ts[i], key, best');
    }
  }

  /** `commit`'s check: some key has a version at or above the snapshot. */
  method AnyNewer(active: Table, imms: seq<Table>, ssts: seq<Table>, keys: seq<Key>, snapshotSeq: nat)
    returns (newer: bool)
    requires FromOne([active] + Reverse(imms) + Reverse(ssts))
    ensures var m := NewestMap(RowsOf([active] + Reverse(imms) + Reverse(ssts)));
            newer <==> exists k :: k in keys && k in m && m[k].seqNo >= snapshotSeq
  {
    ghost var m := NewestMap(RowsOf([active] + Reverse(imms) + Reverse(ssts)));
    for i := 0 to |keys|
      invariant forall j | 0 <= j < i :: keys[j] in m ==> m[keys[j]].seqNo < snapshotSeq
    {
      var cur := HighestSeq(active, imms, ssts, keys[i]);
      if cur.Some? && cur.value >= snapshotSeq {
        assert keys[i] in keys;
        return true;
      }
    }
    newer := false;
  }

  // ---------- Materialising ----------

  /** A memtable's rows as its frozen form delivers them: batches listing the newest version of every key. */
  method Materialise(rows: seq<Row>) returns (batches: seq<Memtable.Batch>)
    ensures Lists(Flatten(batches), NewestMap(rows))
  {
    var series: Memtable.Shard := map[];
    var maxSeq := 0;
    for i := 0 to |rows|
      invariant Memtable.ShardsOk([series], Memtable.OneShard, rows[..i]) && maxSeq == MaxSeq(rows[..i])
    {
      var r := rows[i];
      var cells := Memtable.CellsIn(series, r.key.tags) + [Columnar.CellOf(r)];
      Memtable.InsertShard([series], Memtable.OneShard, rows[..i], r);
      assert [series][0 := series[r.key.tags := cells]] == [series[r.key.tags := cells]];
      MaxSeqSnoc(rows[..i], r);
      assert rows[..i + 1] == rows[..i] + [r];
      series := series[r.key.tags := cells];
      maxSeq := if r.seqNo > maxSeq then r.seqNo else maxSeq;
    }
    assert rows[..|rows|] == rows;
    var frozen := new Memtable.FrozenColumnar(series, maxSeq, rows);
    batches := frozen.ToBatches();
  }

  // ---------- Scanning one SST ----------

  function MaxTs(rows: seq<Row>): int
    requires rows != []
  {
    if |rows| == 1 then rows[0].key.ts
    else if MaxTs(rows[1..]) > rows[0].key.ts then MaxTs(rows[1..]) else rows[0].key.ts
  }

  lemma {:induction false} TsWithin(rows: seq<Row>)
    requires rows != []
    ensures forall r | r in rows :: MinTs(rows) <= r.key.ts <= MaxTs(rows)
  {
    var low := Compaction.MinTsMeans(rows);
    if |rows| > 1 {
      TsWithin(rows[1..]);
      assert rows == [rows[0]] + rows[1..];
    }
  }

  /** What the scan reads of the columns: those the query asks for, or all of them. */
  function Read(cols: Option<Bytes -> Bytes>, rows: seq<Row>): seq<Row> {
    if cols.Some? then ProjectAll(cols.value, rows) else rows
  }

  ghost predicate ReadOf(read: seq<Row>, rows: seq<Row>, cols: Option<Bytes -> Bytes>) {
    if cols.Some? then Narrowed(read, rows, cols.value) else read == rows
  }

  lemma ReadSorted(cols: Option<Bytes -> Bytes>, rows: seq<Row>)
    requires Sorted(rows)
    ensures Sorted(Read(cols, rows)) && ReadOf(Read(cols, rows), rows, cols)
  {
  }

  lemma WholeScan(rows: seq<Row>)
    requires Sorted(rows) && rows != []
    ensures Passing(rows, rows[0].key, rows[|rows| - 1].key, None) == rows
  {
    forall r | r in rows ensures Passes(r.key, rows[0].key, rows[|rows| - 1].key, None) { BetweenEnds(rows, r); }
    PassingAll(rows, rows[0].key, rows[|rows| - 1].key, None);
  }

  /** The rows of a file inside the bounds. */
  function Inside(rows: seq<Row>, bounds: TsRange): seq<Row> {
    if rows == [] then [] else Passing(rows, rows[0].key, rows[|rows| - 1].key, Effective(bounds))
  }

  lemma InsideMeans(rows: seq<Row>, bounds: TsRange)
    requires Sorted(rows)
    ensures Sorted(Inside(rows, bounds)) && forall r :: r in Inside(rows, bounds) <==> r in rows && InTs(r.key.ts, bounds)
    ensures bounds.None? ==> Inside(rows, bounds) == rows
  {
    if rows != [] {
      var first, last := rows[0].key, rows[|rows| - 1].key;
      PassingMembers(rows, first, last, Effective(bounds));
      PassingSorted(rows, first, last, Effective(bounds));
      forall r | r in rows ensures KeyLeq(first, r.key) && KeyLeq(r.key, last) { BetweenEnds(rows, r); }
      if bounds.None? { WholeScan(rows); }
    }
  }

  lemma NoneInside(rows: seq<Row>, bounds: TsRange)
    requires forall r | r in rows :: !InTs(r.key.ts, bounds)
    ensures Inside(rows, bounds) == []
  {
    if rows != [] {
      assert !InTs(rows[0].key.ts, bounds);
      PassingNone(rows, rows[0].key, rows[|rows| - 1].key, Effective(bounds));
    }
  }

  /** In key order exactly the rows inside the bounds. */
  ghost predicate PartOf(part: seq<Row>, rows: seq<Row>, bounds: TsRange) {
    Sorted(part) && forall r :: r in part <==> r in rows && (bounds.None? || bounds.value.0 <= r.key.ts <= bounds.value.1)
  }

  /** Row by row, each with its value reduced to the columns asked for, if any are. */
  ghost predicate ReadAs(read: seq<Row>, part: seq<Row>, cols: Option<Bytes -> Bytes>) {
    && |read| == |part|
    && forall i | 0 <= i < |part| :: if cols.Some? then Projects(read[i], part[i], cols.value) else read[i] == part[i]
  }

  ghost predicate ScannedFile(read: seq<Row>, rows: seq<Row>, bounds: TsRange, cols: Option<Bytes -> Bytes>) {
    exists part :: PartOf(part, rows, bounds) && ReadAs(read, part, cols)
  }

  lemma ReadIs(rows: seq<Row>, cols: Option<Bytes -> Bytes>)
    ensures ReadAs(Read(cols, rows), rows, cols) && ReadAs([], [], cols)
  {
  }

  lemma ReadIsScan(rows: seq<Row>, bounds: TsRange, cols: Option<Bytes -> Bytes>)
    requires Sorted(rows)
    ensures ScannedFile(Read(cols, Inside(rows, bounds)), rows, bounds, cols)
    ensures Inside(rows, bounds) == [] ==> ScannedFile([], rows, bounds, cols)
  {
    var part := Inside(rows, bounds);
    InsideMeans(rows, bounds);
    ReadIs(part, cols);
    assert PartOf(part, rows, bounds);
  }

  /** Nothing if the time extent misses the bounds; otherwise the rows inside them, in the columns asked for. */
  method ScanSst(rows: seq<Row>, bounds: TsRange, cols: Option<Bytes -> Bytes>) returns (source: Option<seq<seq<Row>>>)
    requires Sorted(rows)
    ensures source.None? ==> bounds.Some? && Inside(rows, bounds) == []
    ensures source.Some? ==> Flatten(source.value) == Read(cols, Inside(rows, bounds))
    ensures ScannedFile(if source.Some? then Flatten(source.value) else [], rows, bounds, cols)
  {
    ReadIsScan(rows, bounds, cols);
    if rows == [] { return Some([]); }
    if bounds.Some? {
      TsWithin(rows);
      if !(MaxTs(rows) >= bounds.value.0 && MinTs(rows) <= bounds.value.1) {
        NoneInside(rows, bounds);
        return None;
      }
    }
    var first, last := rows[0].key, rows[|rows| - 1].key;
    var passing := Passing(rows, first, last, Effective(bounds));
    FlattenSingle(Read(cols, passing));
    source := Some([Read(cols, passing)]);
  }

  // ---------- The snapshot ----------

  /**
   What a snapshot has collected from the tables `ts`: `full` materialises each of them, `kept` is the part of it inside
   the bounds and maybe more, and the sources deliver that part, from files only the columns asked for.
   */
  ghost predicate Taken(out: seq<seq<seq<Row>>>, full: seq<seq<Row>>, kept: seq<Row>, ts: seq<Table>, bounds: TsRange,
                        cols: Option<Bytes -> Bytes>)
  {
    && Snapshot(full, ts) && Merge.AllSorted(Merge.Inputs(out))
    && Prunes(kept, Flatten(full), bounds) && (bounds.None? ==> kept == Flatten(full))
    && ReadOf(Flatten(Merge.Inputs(out)), kept, cols)
  }

  lemma InputsSnoc(out: seq<seq<seq<Row>>>, source: seq<seq<Row>>)
    ensures Merge.Inputs(out + [source]) == Merge.Inputs(out) + [Flatten(source)]
    ensures Flatten(Merge.Inputs(out + [source])) == Flatten(Merge.Inputs(out)) + Flatten(source)
  {
    assert Merge.Inputs(out + [source]) == Merge.Inputs(out) + [Flatten(source)];
    FlattenSnoc(Merge.Inputs(out), Flatten(source));
  }

  lemma SortedSnoc(inputs: seq<seq<Row>>, rows: seq<Row>)
    requires Merge.AllSorted(inputs) && Sorted(rows)
    ensures Merge.AllSorted(inputs + [rows])
  {
  }

  lemma ReadMore(read: seq<Row>, kept: seq<Row>, read': seq<Row>, kept': seq<Row>, cols: Option<Bytes -> Bytes>)
    requires ReadOf(read, kept, cols) && ReadOf(read', kept', cols)
    ensures ReadOf(read + read', kept + kept', cols)
  {
  }

  lemma SnapshotSnoc(full: seq<seq<Row>>, ts: seq<Table>, rows: seq<Row>, t: Table)
    requires Snapshot(full, ts) && Lists(rows, NewestMap(t.rows))
    ensures Snapshot(full + [rows], ts + [t])
  {
  }

  lemma TakenNone(out: seq<seq<seq<Row>>>, full: seq<seq<Row>>, kept: seq<Row>, ts: seq<Table>, rows: seq<Row>, t: Table,
                  bounds: TsRange, cols: Option<Bytes -> Bytes>)
    requires Taken(out, full, kept, ts, bounds, cols) && Lists(rows, NewestMap(t.rows))
    requires Prunes([], rows, bounds) && (bounds.None? ==> rows == [])
    ensures Taken(out, full + [rows], kept, ts + [t], bounds, cols)
  {
    SnapshotSnoc(full, ts, rows, t);
    FlattenSnoc(full, rows);
    PrunesMore(kept, Flatten(full), [], rows, bounds);
    SeqAssoc(kept, [], []);
  }

  lemma TakenMore(out: seq<seq<seq<Row>>>, full: seq<seq<Row>>, kept: seq<Row>, ts: seq<Table>,
                  source: seq<seq<Row>>, rows: seq<Row>, part: seq<Row>, t: Table,
                  bounds: TsRange, cols: Option<Bytes -> Bytes>)
    requires Taken(out, full, kept, ts, bounds, cols) && Lists(rows, NewestMap(t.rows))
    requires Prunes(part, rows, bounds) && (bounds.None? ==> part == rows)
    requires Sorted(Flatten(source)) && ReadOf(Flatten(source), part, cols)
    ensures Taken(out + [source], full + [rows], kept + part, ts + [t], bounds, cols)
  {
    SnapshotSnoc(full, ts, rows, t);
    FlattenSnoc(full, rows);
    PrunesMore(kept, Flatten(full), part, rows, bounds);
    InputsSnoc(out, source);
    SortedSnoc(Merge.Inputs(out), Flatten(source));
    ReadMore(Flatten(Merge.Inputs(out)), kept, Flatten(source), part, cols);
  }

  /** Memtables are handed over whole, whatever the bounds and the columns. */
  lemma WholeRead(rows: seq<Row>, bounds: TsRange, cols: Option<Bytes -> Bytes>)
    ensures Prunes(rows, rows, bounds) && ReadOf(rows, rows, cols)
  {
  }

  lemma NothingTaken(bounds: TsRange, cols: Option<Bytes -> Bytes>)
    ensures Taken([], [], [], [], bounds, cols)
  {
    assert Merge.Inputs([]) == [];
  }

  lemma EmptyListing(rows: seq<Row>, out: seq<Row>)
    requires Lists(out, NewestMap(rows))
    ensures rows == [] ==> out == []
  {
    if out != [] { assert out[0] in out; }
  }

  /** Outside the bounds only memtables show: of each key the newest row that they hold. */
  ghost predicate Beyond(kept: seq<Row>, memory: seq<Table>, bounds: TsRange) {
    forall k: Key | !InTs(k.ts, bounds) :: Newest(kept, k) == Newest(RowsOf(memory), k)
  }

  lemma NewestOfListing(rows: seq<Row>, out: seq<Row>, k: Key)
    requires Lists(out, NewestMap(rows))
    ensures Newest(out, k) == Newest(rows, k)
  {
    NewestMapMeaning(out, k);
    NewestMapMeaning(rows, k);
    if k in NewestMap(rows) { NewestIsLargest(out, NewestMap(rows)[k]); }
  }

  lemma NewestOfConcat(a: seq<Row>, a': seq<Row>, b: seq<Row>, b': seq<Row>, k: Key)
    requires Newest(a, k) == Newest(a', k) && Newest(b, k) == Newest(b', k)
    ensures Newest(a + b, k) == Newest(a' + b', k)
  {
    NewestMapConcat(a, b, k);
    NewestMapConcat(a', b', k);
  }

  lemma BeyondMore(kept: seq<Row>, memory: seq<Table>, rows: seq<Row>, t: Table, bounds: TsRange)
    requires Beyond(kept, memory, bounds) && Lists(rows, NewestMap(t.rows))
    ensures Beyond(kept + rows, memory + [t], bounds)
  {
    RowsOfSnoc(memory, t);
    forall k: Key | !InTs(k.ts, bounds) ensures Newest(kept + rows, k) == Newest(RowsOf(memory + [t]), k) {
      NewestOfListing(t.rows, rows, k);
      NewestOfConcat(kept, RowsOf(memory), rows, t.rows, k);
    }
  }

  lemma BeyondNone(kept: seq<Row>, memory: seq<Table>, t: Table, bounds: TsRange)
    requires Beyond(kept, memory, bounds) && t.rows == []
    ensures Beyond(kept, memory + [t], bounds)
  {
    RowsOfSnoc(memory, t);
    SeqAssoc(RowsOf(memory), [], []);
  }

  lemma BeyondInside(kept: seq<Row>, memory: seq<Table>, part: seq<Row>, bounds: TsRange)
    requires Beyond(kept, memory, bounds) && forall r | r in part :: InTs(r.key.ts, bounds)
    ensures Beyond(kept + part, memory, bounds)
  {
    forall k: Key | !InTs(k.ts, bounds) ensures Newest(kept + part, k) == Newest(RowsOf(memory), k) {
      NewestMapMeaning(part, k);
      NewestMapConcat(kept, part, k);
    }
  }

  /** The memtables' part: materialised, and an empty active one left out. */
  method MemorySources(active: Table, imms: seq<Table>, bounds: TsRange, cols: Option<Bytes -> Bytes>)
    returns (out: seq<seq<seq<Row>>>, ghost full: seq<seq<Row>>, ghost kept: seq<Row>)
    ensures Taken(out, full, kept, [active] + Reverse(imms), bounds, cols)
    ensures Beyond(kept, [active] + Reverse(imms), bounds)
  {
    NothingTaken(bounds, cols);
    assert [] + [active] == [active];
    assert Beyond([], [], bounds);
    var batches := Materialise(active.rows);
    WholeRead(Flatten(batches), bounds, cols);
    if active.rows != [] {
      TakenMore([], [], [], [], batches, Flatten(batches), Flatten(batches), active, bounds, cols);
      BeyondMore([], [], Flatten(batches), active, bounds);
      out, full, kept := [] + [batches], [] + [Flatten(batches)], [] + Flatten(batches);
    } else {
      EmptyListing(active.rows, Flatten(batches));
      TakenNone([], [], [], [], Flatten(batches), active, bounds, cols);
      BeyondNone([], [], active, bounds);
      out, full, kept := [], [] + [Flatten(batches)], [];
    }
    NoSource([active], imms);
    for i := |imms| downto 0
      invariant Taken(out, full, kept, [active] + Reverse(imms[i..]), bounds, cols)
      invariant Beyond(kept, [active] + Reverse(imms[i..]), bounds)
    {
      NextSource([active], imms, i);
      batches := Materialise(imms[i].rows);
      WholeRead(Flatten(batches), bounds, cols);
      TakenMore(out, full, kept, [active] + Reverse(imms[i + 1..]), batches, Flatten(batches), Flatten(batches), imms[i],
                bounds, cols);
      BeyondMore(kept, [active] + Reverse(imms[i + 1..]), Flatten(batches), imms[i], bounds);
      out, full, kept := out + [batches], full + [Flatten(batches)], kept + Flatten(batches);
    }
  }

  /** What a snapshot is: some part of the materialised tables that has all their rows inside the bounds. */
  ghost predicate SnapshotOf(out: seq<seq<seq<Row>>>, memory: seq<Table>, ssts: seq<Table>, bounds: TsRange,
                             cols: Option<Bytes -> Bytes>)
  {
    exists full, kept :: Taken(out, full, kept, memory + ssts, bounds, cols) && Beyond(kept, memory, bounds)
  }

  /** One file: skipped, or scanned. */
  lemma TakenFile(out: seq<seq<seq<Row>>>, full: seq<seq<Row>>, kept: seq<Row>, ts: seq<Table>, memory: seq<Table>,
                  source: Option<seq<seq<Row>>>, t: Table, bounds: TsRange, cols: Option<Bytes -> Bytes>)
    requires Taken(out, full, kept, ts, bounds, cols) && Beyond(kept, memory, bounds) && Sorted(t.rows)
    requires source.None? ==> bounds.Some? && Inside(t.rows, bounds) == []
    requires source.Some? ==> Flatten(source.value) == Read(cols, Inside(t.rows, bounds))
    ensures Beyond(kept + Inside(t.rows, bounds), memory, bounds)
    ensures Taken(if source.None? then out else out + [source.value], full + [t.rows], kept + Inside(t.rows, bounds),
                  ts + [t], bounds, cols)
  {
    var part := Inside(t.rows, bounds);
    InsideMeans(t.rows, bounds);
    SortedListing(t.rows, t.rows);
    BeyondInside(kept, memory, part, bounds);
    if source.None? {
      TakenNone(out, full, kept, ts, t.rows, t, bounds, cols);
      SeqAssoc(kept, [], []);
    } else {
      ReadSorted(cols, part);
      TakenMore(out, full, kept, ts, source.value, t.rows, part, t, bounds, cols);
    }
  }

  /** `snapshot_columnar_sources`: memtables whole, SSTs pruned by the bounds and reduced to the columns asked for. */
  method SnapshotSources(active: Table, imms: seq<Table>, ssts: seq<Table>, bounds: TsRange, cols: Option<Bytes -> Bytes>)
    returns (out: seq<seq<seq<Row>>>)
    requires forall t | t in ssts :: Sorted(t.rows)
    ensures SnapshotOf(out, [active] + Reverse(imms), Reverse(ssts), bounds, cols)
  {
    ghost var full, kept;
    out, full, kept := MemorySources(active, imms, bounds, cols);
    ghost var memory := [active] + Reverse(imms);
    NoSource(memory, ssts);
    for i := |ssts| downto 0
      invariant Taken(out, full, kept, memory + Reverse(ssts[i..]), bounds, cols) && Beyond(kept, memory, bounds)
    {
      NextSource(memory, ssts, i);
      var source := ScanSst(ssts[i].rows, bounds, cols);
      TakenFile(out, full, kept, memory + Reverse(ssts[i + 1..]), memory, source, ssts[i], bounds, cols);
      full, kept := full + [ssts[i].rows], kept + Inside(ssts[i].rows, bounds);
      if source.Some? { out := out + [source.value]; }
    }
  }

  // ---------- The sources of a compaction ----------

  lemma {:induction false} PassingFrom(rows: seq<Row>, start: Key, end: Key, range: TsRange, cutoff: I64)
    requires forall r | r in rows :: Passes(r.key, start, end, range) <==> !Expired(r.key, cutoff)
    ensures Passing(rows, start, end, range) == Unexpired(rows, cutoff)
  {
    if rows != [] {
      assert rows == [rows[0]] + rows[1..];
      PassingFrom(rows[1..], start, end, range, cutoff);
    }
  }

  /** The scan clamped to `(cutoff, i64::MAX)`. */
  method ScanFrom(rows: seq<Row>, cutoff: Option<I64>) returns (out: seq<Row>)
    requires Sorted(rows)
    ensures out == Unexpired(rows, Bound(cutoff)) && Sorted(out)
  {
    if rows == [] { return []; }
    var first, last := rows[0].key, rows[|rows| - 1].key;
    var clamp: TsRange := if cutoff.Some? then Some((cutoff.value, I64_MAX)) else None;
    forall r | r in rows ensures Passes(r.key, first, last, clamp) <==> !Expired(r.key, Bound(cutoff)) {
      BetweenEnds(rows, r);
    }
    PassingFrom(rows, first, last, clamp, Bound(cutoff));
    PassingSorted(rows, first, last, clamp);
    out := Passing(rows, first, last, clamp);
  }

  lemma {:induction false} UnexpiredConcat(a: seq<Row>, b: seq<Row>, cutoff: I64)
    ensures Unexpired(a + b, cutoff) == Unexpired(a, cutoff) + Unexpired(b, cutoff)
  {
    if a == [] {
      assert a + b == b;
    } else {
      assert (a + b)[1..] == a[1..] + b;
      UnexpiredConcat(a[1..], b, cutoff);
    }
  }

  /** The sources deliver what has not expired of the tables' rows. */
  ghost predicate GroupRead(sources: seq<seq<seq<Row>>>, ts: seq<Table>, cutoff: I64) {
    && Merge.AllSorted(Merge.Inputs(sources))
    && Flatten(Merge.Inputs(sources)) == Unexpired(RowsOf(ts), cutoff)
  }

  lemma IdsSnoc(ts: seq<Table>, t: Table)
    ensures Ids(ts + [t]) == Ids(ts) + {t.id}
  {
  }

  lemma GroupNext(sources: seq<seq<seq<Row>>>, group: seq<Table>, k: nat, rows: seq<Row>, cutoff: I64)
    requires k < |group| && GroupRead(sources, group[..k], cutoff)
    requires rows == Unexpired(group[k].rows, cutoff) && Sorted(rows)
    ensures GroupRead(sources + [[rows]], group[..k + 1], cutoff)
    ensures Ids(group[..k + 1]) == Ids(group[..k]) + {group[k].id}
  {
    assert group[..k + 1] == group[..k] + [group[k]];
    IdsSnoc(group[..k], group[k]);
    GroupMore(sources, group[..k], group[k], rows, cutoff);
  }

  lemma GroupMore(sources: seq<seq<seq<Row>>>, ts: seq<Table>, t: Table, rows: seq<Row>, cutoff: I64)
    requires GroupRead(sources, ts, cutoff) && rows == Unexpired(t.rows, cutoff) && Sorted(rows)
    ensures GroupRead(sources + [[rows]], ts + [t], cutoff)
  {
    FlattenSingle(rows);
    InputsSnoc(sources, [rows]);
    SortedSnoc(Merge.Inputs(sources), rows);
    RowsOfSnoc(ts, t);
    UnexpiredConcat(RowsOf(ts), t.rows, cutoff);
  }

  /** The loop over the chosen positions: the ids to replace, and a source for each table. */
  method GroupSources(ts: seq<Table>, idxs: seq<nat>, cutoff: Option<I64>)
    returns (targets: set<nat>, sources: seq<seq<seq<Row>>>)
    requires forall k | 0 <= k < |idxs| :: idxs[k] < |ts|
    requires forall t | t in ts :: Sorted(t.rows)
    ensures targets == Ids(Compaction.Picked(ts, idxs))
    ensures GroupRead(sources, Compaction.Picked(ts, idxs), Bound(cutoff))
  {
    ghost var group := Compaction.Picked(ts, idxs);
    targets, sources := {}, [];
    assert Merge.Inputs([]) == [];
    for k := 0 to |idxs|
      invariant targets == Ids(group[..k]) && GroupRead(sources, group[..k], Bound(cutoff))
    {
      var rows := ScanFrom(ts[idxs[k]].rows, cutoff);
      GroupNext(sources, group, k, rows, Bound(cutoff));
      sources := sources + [[rows]];
      targets := targets + {ts[idxs[k]].id};
    }
    assert group[..|idxs|] == group;
  }
}
