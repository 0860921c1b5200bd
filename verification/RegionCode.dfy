/**
 The region as the program runs it (src/memtable/memtable.rs, src/memtable/transaction.rs): fields that the methods
 update, each method a run of the state machine's steps, so that everything proved of runs holds of it.
 */
module RegionCode {
  import opened Rows
  import opened Machine
  import opened Invariant
  import opened WorkerSteps
  import opened WriterSteps
  import opened Safety
  import opened Transactions
  import opened Reads
  import opened Compaction
  import opened Walk
  import Merge
  import Separation
  import SstFile

  /** `ls` is a run from `s` to `s'`. */
  ghost predicate Steps(s: State, ls: seq<Label>, s': State) {
    Runs(s, ls) && Run(s, ls) == s'
  }

  lemma OneStep(s: State, l: Label)
    requires Enabled(s, l)
    ensures Steps(s, [l], Step(s, l))
  {
    assert [l][1..] == [];
    assert Runs(Step(s, l), []);
  }

  lemma MoreSteps(s: State, a: seq<Label>, s': State, b: seq<Label>, s'': State)
    requires Steps(s, a, s') && Steps(s', b, s'')
    ensures Steps(s, a + b, s'')
  {
    RunConcat(s, a, b);
  }

  lemma StepsKeepInv(s: State, ls: seq<Label>, s': State)
    requires Inv(s) && Steps(s, ls, s')
    ensures Inv(s')
  {
    RunOk(s, ls);
  }

  // ---------- Transactions ----------

  /** Indexes one batch on top of what is indexed already. */
  method IndexRows(m: map<Key, Row>, rows: seq<Row>, snapshotSeq: nat, ghost before: seq<Row>)
    returns (m': map<Key, Row>)
    requires m == NewestMap(Below(before, snapshotSeq))
    ensures m' == NewestMap(Below(before + rows, snapshotSeq))
  {
    m' := m;
    assert before + rows[..0] == before;
    for j := 0 to |rows|
      invariant m' == NewestMap(Below(before + rows[..j], snapshotSeq))
    {
      var r := rows[j];
      TakeNext(before, rows, j);
      BelowSnoc(before + rows[..j], r, snapshotSeq);
      if r.seqNo >= snapshotSeq { continue; }
      NewestMapSnoc(Below(before + rows[..j], snapshotSeq), r);
      if r.key !in m' || r.seqNo > m'[r.key].seqNo {
        m' := m'[r.key := r];
      }
    }
    assert rows[..|rows|] == rows;
  }

  class Transaction {
    const snapshotSeq: nat
    const index: map<Key, Row>
    var writes: map<Key, Option<Bytes>>

    ghost function Value(): Txn
      reads this
    {
      Txn(snapshotSeq, index, writes)
    }

    /** Indexes the newest version below the snapshot of every key, batch by batch of every source. */
    constructor (batches: seq<seq<Row>>, snapshotSeq: nat)
      ensures Value() == Txn(snapshotSeq, NewestMap(Below(Flatten(batches), snapshotSeq)), map[])
    {
      var m: map<Key, Row> := map[];
      for i := 0 to |batches|
        invariant m == NewestMap(Below(Flatten(batches[..i]), snapshotSeq))
      {
        FlattenTake(batches, i);
        m := IndexRows(m, batches[i], snapshotSeq, Flatten(batches[..i]));
      }
      assert batches[..|batches|] == batches;
      this.snapshotSeq, index, writes := snapshotSeq, m, map[];
    }

    /** Buffers a value; of a transaction that is open on a region this is its step. */
    method Write(key: Key, value: Bytes, ghost region: Region, ghost txns: map<nat, Txn>, ghost t: nat)
      requires t in txns && txns[t] == Value()
      modifies this
      ensures Value() == old(Value()).(writes := old(writes)[key := Some(value)])
      ensures Steps(region.Abs(txns), [TxnWrite(t, key, Some(value))], region.Abs(txns[t := Value()]))
    {
      OneStep(region.Abs(txns), TxnWrite(t, key, Some(value)));
      writes := writes[key := Some(value)];
    }

    method Delete(key: Key, ghost region: Region, ghost txns: map<nat, Txn>, ghost t: nat)
      requires t in txns && txns[t] == Value()
      modifies this
      ensures Value() == old(Value()).(writes := old(writes)[key := None])
      ensures Steps(region.Abs(txns), [TxnWrite(t, key, None)], region.Abs(txns[t := Value()]))
    {
      OneStep(region.Abs(txns), TxnWrite(t, key, None));
      writes := writes[key := None];
    }

    method Get(key: Key) returns (value: Option<Bytes>)
      ensures value == TxnGet(Value(), key)
      ensures forall x :: value == Some(x) <==>
                if key in writes then writes[key] == Some(x) else key in index && index[key].value == Some(x)
    {
      if key in writes { return writes[key]; }
      if key in index { return index[key].value; }
      return None;
    }
  }

  /** The write buffer's keys as the ordered map yields them. */
  method OrderedKeys(writes: map<Key, Option<Bytes>>) returns (keys: seq<Key>)
    ensures KeysOf(keys, writes)
  {
    keys := [];
    var todo := writes.Keys;
    while todo != {}
      invariant todo <= writes.Keys && forall k :: k in keys <==> k in writes && k !in todo
      invariant forall i, j | 0 <= i < j < |keys| :: KeyLess(keys[i], keys[j])
      invariant forall k, t | k in keys && t in todo :: KeyLess(k, t)
      decreases |todo|
    {
      KeyOrder();
      ghost var least := Least(todo, KeyLess);
      var next :| next in todo && forall t | t in todo :: t == next || KeyLess(next, t);
      forall i | 0 <= i < |keys| ensures KeyLess(keys[i], next) { assert keys[i] in keys; }
      keys := keys + [next];
      todo := todo - {next};
    }
  }

  function LogRows(wals: map<nat, seq<Row>>, n: nat): seq<Row> {
    if n in wals then wals[n] else []
  }

  // ---------- Runs ----------

  /** What a single write does to the state. */
  function WrittenBy(s: State, v: Live, r: Row): State {
    var all := v.active.rows + [r];
    s.(process := Up(v.(active := Table(v.active.id, all), nextSeq := v.nextSeq + 1)),
       disk := s.disk.(wals := s.disk.wals[v.active.id := all]), hist := s.hist + [r])
  }

  lemma WriteRun(s: State, key: Key, value: Option<Bytes>)
    requires s.process.Up? && s.process.live.writers == map[]
    ensures var v := s.process.live;
            Steps(s, [Allocate(key, value), Insert(v.nextSeq)], WrittenBy(s, v, Row(key, v.nextSeq, value)))
  {
    var v := s.process.live;
    var l, l' := Allocate(key, value), Insert(v.nextSeq);
    assert v.writers[v.nextSeq := (key, value)] - {v.nextSeq} == map[];
    OneStep(s, l);
    OneStep(Step(s, l), l');
    MoreSteps(s, [l], Step(s, l), [l'], WrittenBy(s, v, Row(key, v.nextSeq, value)));
    assert [l] + [l'] == [l, l'];
  }


  function FlushLabels(n: nat, rows: seq<Row>, removed: bool): seq<Label> {
    [FlushWrite(n, rows)] + [FlushPublish] + [FlushFinish] + if removed then [RemoveWal(n)] else []
  }

  function FileWritten(s: State, v: Live, n: nat, rows: seq<Row>): State {
    s.(process := Up(v.(nextSst := v.nextSst + 1, job := FlushWritten(n, v.nextSst))),
       disk := s.disk.(files := s.disk.files[v.nextSst := rows]))
  }

  function FilePublished(s: State, v: Live, n: nat, id: nat, rows: seq<Row>): State {
    s.(process := Up(v.(ssts := v.ssts + [Table(id, rows)], imms := Without(v.imms, {n}), job := FlushPublished(n, id))))
  }

  function FileRecorded(s: State, v: Live, n: nat): State {
    s.(process := Up(v.(job := Idle, doomedWals := v.doomedWals + {n})),
       disk := s.disk.(manifest := Some(Ids(v.ssts))))
  }

  function LogRemoved(s: State, v: Live, n: nat, removed: bool): State {
    if removed then
      s.(process := Up(v.(doomedWals := v.doomedWals - {n})), disk := s.disk.(wals := s.disk.wals - {n}))
    else s
  }

  /** The state after the four effects of a flush. */
  function Flushed(s: State, v: Live, n: nat, rows: seq<Row>, removed: bool): State {
    var written := FileWritten(s, v, n, rows);
    var published := FilePublished(written, written.process.live, n, v.nextSst, rows);
    var recorded := FileRecorded(published, published.process.live, n);
    LogRemoved(recorded, recorded.process.live, n, removed)
  }

  lemma FlushWriteRun(s: State, v: Live, n: nat, rows: seq<Row>)
    requires s.process == Up(v) && LiveEnabled(s, v, FlushWrite(n, rows))
    ensures Steps(s, [FlushWrite(n, rows)], FileWritten(s, v, n, rows))
  {
    OneStep(s, FlushWrite(n, rows));
  }

  lemma FlushPublishRun(s: State, v: Live, n: nat, id: nat, rows: seq<Row>)
    requires s.process == Up(v) && v.job == FlushWritten(n, id) && id in s.disk.files && s.disk.files[id] == rows
    ensures Steps(s, [FlushPublish], FilePublished(s, v, n, id, rows))
  {
    OneStep(s, FlushPublish);
  }

  lemma FlushFinishRun(s: State, v: Live, n: nat)
    requires s.process == Up(v) && v.job.FlushPublished? && v.job.wal == n
    ensures Steps(s, [FlushFinish], FileRecorded(s, v, n))
  {
    OneStep(s, FlushFinish);
  }

  lemma RemoveRun(s: State, v: Live, n: nat, removed: bool)
    requires s.process == Up(v) && n in v.doomedWals
    ensures Steps(s, if removed then [RemoveWal(n)] else [], LogRemoved(s, v, n, removed))
  {
    if removed { OneStep(s, RemoveWal(n)); }
  }

  lemma FlushRun(s: State, v: Live, n: nat, rows: seq<Row>, removed: bool)
    requires s.process == Up(v) && LiveEnabled(s, v, FlushWrite(n, rows))
    ensures Steps(s, FlushLabels(n, rows, removed), Flushed(s, v, n, rows, removed))
  {
    var written := FileWritten(s, v, n, rows);
    var published := FilePublished(written, written.process.live, n, v.nextSst, rows);
    var recorded := FileRecorded(published, published.process.live, n);
    FlushWriteRun(s, v, n, rows);
    FlushPublishRun(written, written.process.live, n, v.nextSst, rows);
    MoreSteps(s, [FlushWrite(n, rows)], written, [FlushPublish], published);
    FlushFinishRun(published, published.process.live, n);
    MoreSteps(s, [FlushWrite(n, rows)] + [FlushPublish], published, [FlushFinish], recorded);
    RemoveRun(recorded, recorded.process.live, n, removed);
    MoreSteps(s, [FlushWrite(n, rows)] + [FlushPublish] + [FlushFinish], recorded,
              if removed then [RemoveWal(n)] else [], LogRemoved(recorded, recorded.process.live, n, removed));
  }

  function Committed(s: State, v: Live, t: nat, txn: Txn, keys: seq<Key>): State
    requires forall k | k in keys :: k in txn.writes
  {
    var rows := Numbered(Entries(keys, txn.writes), v.nextSeq);
    var all := v.active.rows + rows;
    s.(process := Up(v.(active := Table(v.active.id, all), nextSeq := v.nextSeq + |keys|, txns := v.txns - {t})),
       disk := s.disk.(wals := s.disk.wals[v.active.id := all]),
       hist := s.hist + rows, commits := s.commits + [Machine.Commit(txn, v.nextSeq, |s.hist|)])
  }

  function BatchWritten(s: State, v: Live, entries: seq<(Key, Option<Bytes>)>): State {
    var rows := Numbered(entries, v.nextSeq);
    var all := v.active.rows + rows;
    s.(process := Up(v.(active := Table(v.active.id, all), nextSeq := v.nextSeq + |entries|)),
       disk := s.disk.(wals := s.disk.wals[v.active.id := all]), hist := s.hist + rows)
  }

  lemma BatchRun(s: State, v: Live, entries: seq<(Key, Option<Bytes>)>)
    requires s.process == Up(v) && v.writers == map[]
    ensures Steps(s, [WriteBatch(entries)], BatchWritten(s, v, entries))
  {
    OneStep(s, WriteBatch(entries));
  }

  lemma NothingRun(s: State, v: Live, t: nat)
    requires s.process == Up(v) && t in v.txns && v.txns[t].writes == map[]
    ensures Steps(s, [CommitNothing(t)], s.(process := Up(v.(txns := v.txns - {t}))))
  {
    OneStep(s, CommitNothing(t));
  }

  lemma CommitRun(s: State, v: Live, t: nat, txn: Txn, keys: seq<Key>)
    requires s.process == Up(v) && v.writers == map[] && t in v.txns && v.txns[t] == txn && txn.writes != map[]
    requires KeysOf(keys, txn.writes) && !Conflicts(v, txn)
    ensures Steps(s, [CommitWrites(t, keys)], Committed(s, v, t, txn, keys))
  {
    OneStep(s, CommitWrites(t, keys));
  }

  function CompactLabels(window: int, threshold: nat, w: int, cutoff: I64, merged: seq<Row>): seq<Label> {
    [CompactStart(window, threshold, w, cutoff, merged)]
    + (if merged == [] then [] else [CompactWrite]) + [CompactPublish, CompactFinish]
  }

  function Later(a: I64, b: I64): I64 {
    if b > a then b else a
  }

  function CompactedState(s: State, v: Live, window: int, w: int, cutoff: I64, merged: seq<Row>): State {
    var ssts := Compacted(v.ssts, window, w, Table(v.nextSst, merged));
    var v' := v.(ssts := ssts, job := Idle, doomedSsts := v.doomedSsts + Ids(Group(v.ssts, window, w)));
    if merged == [] then
      s.(process := Up(v'), disk := s.disk.(manifest := Some(Ids(ssts))), floor := Later(s.floor, cutoff))
    else
      s.(process := Up(v'.(nextSst := v.nextSst + 1)),
         disk := s.disk.(files := s.disk.files[v.nextSst := merged], manifest := Some(Ids(ssts))),
         floor := Later(s.floor, cutoff))
  }

  /** What publishing and recording make of a merge whose file, if any, is written. */
  function Replaced(s: State, v: Live, targets: set<nat>, out: seq<Table>): State {
    var ssts := Without(v.ssts, targets) + out;
    s.(process := Up(v.(ssts := ssts, job := Idle, doomedSsts := v.doomedSsts + targets)),
       disk := s.disk.(manifest := Some(Ids(ssts))))
  }

  lemma ReplaceRun(s: State, v: Live, targets: set<nat>, id: nat, rows: seq<Row>)
    requires s.process == Up(v) && v.job == CompactWritten(targets, id) && id in s.disk.files && s.disk.files[id] == rows
    ensures Steps(s, [CompactPublish, CompactFinish], Replaced(s, v, targets, [Table(id, rows)]))
  {
    var s1 := Step(s, CompactPublish);
    OneStep(s, CompactPublish);
    OneStep(s1, CompactFinish);
    MoreSteps(s, [CompactPublish], s1, [CompactFinish], Step(s1, CompactFinish));
    assert [CompactPublish] + [CompactFinish] == [CompactPublish, CompactFinish];
  }

  lemma DropRun(s: State, v: Live, targets: set<nat>)
    requires s.process == Up(v) && v.job == Merging(targets, [])
    ensures Steps(s, [CompactPublish, CompactFinish], Replaced(s, v, targets, []))
  {
    var s1 := Step(s, CompactPublish);
    OneStep(s, CompactPublish);
    OneStep(s1, CompactFinish);
    MoreSteps(s, [CompactPublish], s1, [CompactFinish], Step(s1, CompactFinish));
    assert [CompactPublish] + [CompactFinish] == [CompactPublish, CompactFinish];
    assert Without(v.ssts, targets) + [] == Without(v.ssts, targets);
  }

  function Merged(s: State, v: Live, targets: set<nat>, cutoff: I64, merged: seq<Row>): State {
    s.(process := Up(v.(job := Merging(targets, merged))), floor := Later(s.floor, cutoff))
  }

  function Written(s: State, v: Live, targets: set<nat>, merged: seq<Row>): State {
    s.(process := Up(v.(nextSst := v.nextSst + 1, job := CompactWritten(targets, v.nextSst))),
       disk := s.disk.(files := s.disk.files[v.nextSst := merged]))
  }

  lemma MergeRun(s: State, v: Live, l: Label)
    requires s.process == Up(v) && l.CompactStart? && LiveEnabled(s, v, l)
    ensures Steps(s, [l], Merged(s, v, Ids(Group(v.ssts, l.window, l.w)), l.cutoff, l.merged))
  {
    OneStep(s, l);
  }

  lemma FileRun(s: State, v: Live, targets: set<nat>, merged: seq<Row>)
    requires s.process == Up(v) && v.job == Merging(targets, merged) && merged != []
    ensures Steps(s, [CompactWrite], Written(s, v, targets, merged))
  {
    OneStep(s, CompactWrite);
  }

  /** A merge that leaves no rows: publish and record. */
  lemma DroppingRun(s: State, v: Live, l: Label)
    requires s.process == Up(v) && l.CompactStart? && LiveEnabled(s, v, l) && l.merged == []
    ensures Steps(s, [l] + [CompactPublish, CompactFinish], CompactedState(s, v, l.window, l.w, l.cutoff, l.merged))
  {
    var targets := Ids(Group(v.ssts, l.window, l.w));
    var s1 := Merged(s, v, targets, l.cutoff, l.merged);
    MergeRun(s, v, l);
    DropRun(s1, s1.process.live, targets);
    MoreSteps(s, [l], s1, [CompactPublish, CompactFinish], Replaced(s1, s1.process.live, targets, []));
  }

  /** Otherwise the file is written first. */
  lemma ReplacingRun(s: State, v: Live, l: Label)
    requires s.process == Up(v) && l.CompactStart? && LiveEnabled(s, v, l) && l.merged != []
    ensures Steps(s, [l] + [CompactWrite] + [CompactPublish, CompactFinish],
                  CompactedState(s, v, l.window, l.w, l.cutoff, l.merged))
  {
    var targets := Ids(Group(v.ssts, l.window, l.w));
    var s1 := Merged(s, v, targets, l.cutoff, l.merged);
    var s2 := Written(s1, s1.process.live, targets, l.merged);
    MergeRun(s, v, l);
    FileRun(s1, s1.process.live, targets, l.merged);
    MoreSteps(s, [l], s1, [CompactWrite], s2);
    ReplaceRun(s2, s2.process.live, targets, v.nextSst, l.merged);
    MoreSteps(s, [l] + [CompactWrite], s2, [CompactPublish, CompactFinish],
              Replaced(s2, s2.process.live, targets, [Table(v.nextSst, l.merged)]));
  }

  lemma CompactRun(s: State, v: Live, window: int, threshold: nat, w: int, cutoff: I64, merged: seq<Row>)
    requires s.process == Up(v) && LiveEnabled(s, v, CompactStart(window, threshold, w, cutoff, merged))
    ensures Steps(s, CompactLabels(window, threshold, w, cutoff, merged), CompactedState(s, v, window, w, cutoff, merged))
  {
    var l := CompactStart(window, threshold, w, cutoff, merged);
    if merged == [] {
      SeqAssoc([l], [], []);
      DroppingRun(s, v, l);
    } else {
      ReplacingRun(s, v, l);
    }
  }

  lemma CompactLabelsOk(window: int, threshold: nat, w: int, cutoff: I64, merged: seq<Row>)
    ensures var ls := CompactLabels(window, threshold, w, cutoff, merged);
            (forall l | l in ls :: CompactLabel(l)) && CutoffsUpTo(ls, cutoff)
  {
  }

  // ---------- What the invariant says about the fields ----------

  lemma SstSorted(s: State, t: Table)
    requires Inv(s) && s.process.Up? && t in s.process.live.ssts
    ensures Sorted(t.rows) && t.rows != []
  {
    assert t.id in Ids(s.process.live.ssts);
  }

  lemma LiveFromOne(s: State)
    requires Inv(s) && s.process.Up?
    ensures FromOne(Sources(s.process.live))
  {
    SourcesRows(s.process.live);
    assert TableRows(Sources(s.process.live)) <= RowSet(s.hist);
  }

  lemma SstsBelow(s: State)
    requires Inv(s) && s.process.Up?
    ensures forall u | u in s.process.live.ssts :: u.id < s.process.live.nextSst
    ensures forall u | u in s.process.live.ssts :: Sorted(u.rows)
    ensures Ascending(s.process.live.ssts)
  {
    var v := s.process.live;
    forall u | u in v.ssts ensures u.id < v.nextSst { assert u.id in Ids(v.ssts); }
    forall u | u in v.ssts ensures Sorted(u.rows) { SstSorted(s, u); }
  }

  lemma NextLogIsNew(s: State)
    requires s.process.Up?
    ensures Inv(s) ==> s.process.live.active.id + 1 !in s.disk.wals
  {
  }

  /** What a compaction does to the files: nothing, unless in some interval enough of them start; else it merges the earliest. */
  ghost predicate CompactsByTime(before: seq<Table>, after: seq<Table>, size: int, threshold: nat, cutoff: int, id: nat) {
    if |before| >= threshold && exists v :: Crowded(before, v, size, threshold)
      then exists w :: MergesWindow(before, after, w, size, threshold, cutoff, id)
      else after == before
  }

  /** A table with this id went away. */
  ghost predicate Replaces(before: seq<Table>, after: seq<Table>, id: nat) {
    exists t :: t in before && t !in after && t.id == id
  }

  lemma TargetsReplaced(ts: seq<Table>, window: int, w: int, out: Table)
    requires Ascending(ts) && forall t | t in ts :: t.id < out.id
    ensures forall id :: id in Ids(Group(ts, window, w)) <==> Replaces(ts, Compacted(ts, window, w, out), id)
  {
    CompactedKeeps(ts, window, w, out);
    GroupStarts(ts, window, w);
  }

  /** The group that a compaction replaces, and the rows it replaces it by. */
  datatype MergedWindow = MergedWindow(w: int, targets: set<nat>, rows: seq<Row>)

  /** `compact` up to the merge: which tables, and what is left of them. */
  method MergeWindow(ssts: seq<Table>, nextSst: nat, window: int, threshold: nat, cutoff: Option<I64>)
    returns (m: Option<MergedWindow>)
    requires forall u | u in ssts :: Sorted(u.rows) && u.id < nextSst
    ensures m.None? <==> !Busy(ssts, window, threshold)
    ensures m.Some? ==> m.value.targets == Ids(Group(ssts, window, m.value.w))
    ensures m.Some? ==> Output(ssts, window, threshold, m.value.w, Bound(cutoff), Table(nextSst, m.value.rows))
  {
    var chosen := ChooseWindow(ssts, window, threshold);
    if chosen.None? { return None; }
    var (w, idxs) := chosen.value;
    var targets, sources := GroupSources(ssts, idxs, cutoff);
    var merged := Merge.MergeAll(sources);
    SstFile.OrderedInput(merged.value);
    m := Some(MergedWindow(w, targets, SstFile.BuildOrder(merged.value)));
  }

  /** All batches of all sources, one after the other. */
  lemma {:induction false} AllBatches(out: seq<seq<seq<Row>>>)
    ensures Flatten(Flatten(out)) == Flatten(Merge.Inputs(out))
  {
    if out == [] {
      assert Merge.Inputs(out) == [];
    } else {
      AllBatches(out[1..]);
      FlattenConcat(out[0], Flatten(out[1..]));
      assert Merge.Inputs(out)[1..] == Merge.Inputs(out[1..]);
    }
  }

  // ---------- What the methods promise ----------

  /** `rows` are `before` and then the entries, in their order, under consecutive numbers from `start`. */
  ghost predicate Extends(rows: seq<Row>, before: seq<Row>, entries: seq<(Key, Option<Bytes>)>, start: nat) {
    && |rows| == |before| + |entries| && rows[..|before|] == before
    && forall i | 0 <= i < |entries| :: rows[|before| + i] == Row(entries[i].0, start + i, entries[i].1)
  }

  predicate NoneExpired(writes: map<Key, Option<Bytes>>, floor: I64) {
    forall k | k in writes :: !Expired(k, floor)
  }

  /** No version of a written key is at or above the snapshot. */
  predicate Untouched(hist: seq<Row>, writes: map<Key, Option<Bytes>>, snapshot: nat) {
    forall r | r in hist && r.key in writes :: r.seqNo < snapshot
  }

  /** After the rows that were there, one row for every key written. */
  ghost predicate AddsWrites(hist: seq<Row>, before: seq<Row>, start: nat, writes: map<Key, Option<Bytes>>) {
    |before| <= |hist| && hist[..|before|] == before && WrittenOut(hist, |before|, start, writes)
  }

  lemma NoWrites(hist: seq<Row>, start: nat)
    ensures AddsWrites(hist, hist, start, map[])
  {
  }

  lemma CommitAddsWrites(hist: seq<Row>, keys: seq<Key>, t: Txn, start: nat)
    requires KeysOf(keys, t.writes)
    ensures AddsWrites(hist + Numbered(Entries(keys, t.writes), start), hist, start, t.writes)
  {
    NumberedWrites(hist, Commit(t, start, |hist|), keys);
  }

  /** Without expired keys there is a conflict exactly if some version of what was written is at or above the snapshot. */
  lemma ConflictIffTouched(s: State, v: Live, t: Txn)
    requires Inv(s) && s.process == Up(v)
    ensures NoneExpired(t.writes, s.floor) ==> (!Conflicts(v, t) <==> Untouched(s.hist, t.writes, t.snapshot))
  {
    if NoneExpired(t.writes, s.floor) { NoConflictMeans(s.hist, s.commits, s.floor, s.disk, v, t); }
  }

  /** Of a key that has not expired every row has a number below the next one. */
  lemma UnexpiredBelow(s: State, k: Key)
    requires Inv(s) && s.process.Up? && !Expired(k, s.floor)
    ensures forall r | r in s.hist && r.key == k :: r.seqNo < s.process.live.nextSeq
  {
  }

  lemma IndexIsNewest(hist: seq<Row>, floor: I64, index: map<Key, Row>)
    requires View(index, floor) == View(NewestMap(hist), floor)
    ensures forall k: Key | !Expired(k, floor) :: Newest(hist, k) == if k in index then Some(index[k]) else None
  {
    forall k: Key | !Expired(k, floor) ensures Newest(hist, k) == if k in index then Some(index[k]) else None {
      assert k in index <==> k in View(index, floor);
      assert k in NewestMap(hist) <==> k in View(NewestMap(hist), floor);
    }
  }

  /** Of every key of the batch that has not expired the last entry is the newest version. */
  ghost predicate LastEntriesWin(rows: seq<Row>, entries: seq<(Key, Option<Bytes>)>, start: nat, floor: I64) {
    forall i | 0 <= i < |entries| && LastOfKey(entries, i) && !Expired(entries[i].0, floor) ::
      Newest(rows, entries[i].0) == Some(Row(entries[i].0, start + i, entries[i].1))
  }

  lemma LastEntriesNewest(s: State, rows: seq<Row>, entries: seq<(Key, Option<Bytes>)>)
    requires Inv(s) && s.process.Up? && Extends(rows, s.hist, entries, s.process.live.nextSeq)
    ensures LastEntriesWin(rows, entries, s.process.live.nextSeq, s.floor)
  {
    forall i | 0 <= i < |entries| && LastOfKey(entries, i) && !Expired(entries[i].0, s.floor)
      ensures Newest(rows, entries[i].0) == Some(Row(entries[i].0, s.process.live.nextSeq + i, entries[i].1))
    {
      UnexpiredBelow(s, entries[i].0);
      LastEntryWins(rows, s.hist, entries, s.process.live.nextSeq, i);
    }
  }

  lemma NumberedExtends(before: seq<Row>, entries: seq<(Key, Option<Bytes>)>, start: nat)
    ensures Extends(before + Numbered(entries, start), before, entries, start)
  {
  }

  /** No later entry has the key. */
  predicate LastOfKey(entries: seq<(Key, Option<Bytes>)>, i: nat)
    requires i < |entries|
  {
    forall j | i < j < |entries| :: entries[j].0 != entries[i].0
  }

  lemma LastEntryWins(rows: seq<Row>, before: seq<Row>, entries: seq<(Key, Option<Bytes>)>, start: nat, i: nat)
    requires Extends(rows, before, entries, start) && i < |entries| && LastOfKey(entries, i)
    requires forall r | r in before && r.key == entries[i].0 :: r.seqNo < start
    ensures Newest(rows, entries[i].0) == Some(Row(entries[i].0, start + i, entries[i].1))
  {
    var n := |before| + i;
    forall j | 0 <= j < |rows| && j != n && rows[j].key == rows[n].key ensures j < n && rows[j].seqNo < rows[n].seqNo {
      if j < |before| {
        assert rows[..|before|][j] == rows[j] && rows[j] in before;
      } else {
        assert rows[|before| + (j - |before|)].key == entries[j - |before|].0;
      }
    }
    WinnerIsNewest(rows, n);
  }

  /** The key's highest number, nothing if there is no row of the key. */
  ghost predicate HighestOf(hist: seq<Row>, key: Key, best: Option<nat>) {
    && (best.None? ==> forall r | r in hist :: r.key != key)
    && (best.Some? ==>
          && (exists r :: r in hist && r.key == key && r.seqNo == best.value)
          && forall r | r in hist && r.key == key :: r.seqNo <= best.value)
  }

  lemma NewestIsHighest(hist: seq<Row>, key: Key)
    ensures HighestOf(hist, key, SeqOption(Newest(hist, key)))
  {
    NewestMapMeaning(hist, key);
    forall r | r in hist && r.key == key ensures key in NewestMap(hist) && r.seqNo <= NewestMap(hist)[key].seqNo {
      NewestIsLargest(hist, r);
    }
  }

  // ---------- The region ----------

  /** What readers share: swapped as a whole. */
  datatype Version = Version(active: Table, imms: seq<Table>, ssts: seq<Table>)

  function LiveOf(v: Version, nextSeq: nat, nextSst: nat, txns: map<nat, Txn>, doomedSsts: set<nat>, doomedWals: set<nat>): Live {
    Live(v.active, v.imms, v.ssts, nextSeq, nextSst, map[], txns, Idle, doomedSsts, doomedWals)
  }

  class Region {
    var version: Version
    var nextSeq: nat
    var nextSst: nat
    var disk: Disk
    // removals still owed
    var pendingSsts: set<nat>
    var pendingWals: set<nat>
    // what happened so far
    ghost var hist: seq<Row>
    ghost var commits: seq<Commit>
    ghost var floor: I64

    /** The state of the machine between two operations, `txns` being the open transactions. */
    ghost function Abs(txns: map<nat, Txn>): State
      reads this
    {
      State(Up(LiveOf(version, nextSeq, nextSst, txns, pendingSsts, pendingWals)), disk, hist, commits, floor)
    }

    constructor (active: Table, ssts: seq<Table>, nextSeq: nat, nextSst: nat, disk: Disk,
                 ghost hist: seq<Row>, ghost commits: seq<Commit>, ghost floor: I64)
      ensures Abs(map[]) == State(Up(Live(active, [], ssts, nextSeq, nextSst, map[], map[], Idle, {}, {})),
                                  disk, hist, commits, floor)
    {
      version, this.nextSeq, this.nextSst, this.disk := Version(active, [], ssts), nextSeq, nextSst, disk;
      pendingSsts, pendingWals, this.hist, this.commits, this.floor := {}, {}, hist, commits, floor;
    }

    /** Log first, then memory. */
    method Append(rows: seq<Row>)
      modifies `version, `disk, `hist
      ensures version == old(version).(active := Table(old(version).active.id, old(version).active.rows + rows))
      ensures disk == old(disk).(wals := old(disk).wals[version.active.id := version.active.rows])
      ensures hist == old(hist) + rows
    {
      var id, all := version.active.id, version.active.rows + rows;
      disk := disk.(wals := disk.wals[id := all]);
      version := version.(active := Table(id, all));
      hist := hist + rows;
    }

    /**
     A single write or delete, running alone: it takes a number and inserts its row. The caller gets back the value that
     the active memtable held, which knows nothing of older tables.
     */
    method WriteInner(key: Key, value: Option<Bytes>, ghost txns: map<nat, Txn>) returns (before: Option<Bytes>)
      modifies this
      ensures Steps(old(Abs(txns)), [Allocate(key, value), Insert(old(nextSeq))], Abs(txns))
      ensures hist == old(hist) + [Row(key, old(nextSeq), value)]
      ensures forall x :: before == Some(x) <==> HasValue(old(version).active.rows, key, x)
    {
      WriteRun(Abs(txns), key, value);
      var seqNo := nextSeq;
      nextSeq := nextSeq + 1;
      var held := Newest(version.active.rows, key);
      before := if held.Some? then held.value.value else None;
      HasValueMeans(version.active.rows, key, before);
      Append([Row(key, seqNo, value)]);
    }

    /**
     A batch: its entries get consecutive numbers and go in their order into the log, in one frame, and the memtable. Of a
     key that occurs in it more than once the last entry is then the newest version.
     */
    method WriteBatch(entries: seq<(Key, Option<Bytes>)>, ghost txns: map<nat, Txn>)
      modifies this
      ensures Steps(old(Abs(txns)), [Label.WriteBatch(entries)], Abs(txns))
      ensures Extends(hist, old(hist), entries, old(nextSeq)) && nextSeq == old(nextSeq) + |entries|
      ensures Extends(version.active.rows, old(version).active.rows, entries, old(nextSeq))
      ensures version.active.id in disk.wals && disk.wals[version.active.id] == version.active.rows
      ensures old(Inv(Abs(txns))) ==> LastEntriesWin(hist, entries, old(nextSeq), floor)
    {
      ghost var s := Abs(txns);
      BatchRun(s, s.process.live, entries);
      NumberedExtends(hist, entries, nextSeq);
      NumberedExtends(version.active.rows, entries, nextSeq);
      AppendEntries(entries, txns);
      if Inv(s) { LastEntriesNewest(s, hist, entries); }
    }

    method AppendEntries(entries: seq<(Key, Option<Bytes>)>, ghost txns: map<nat, Txn>)
      modifies `nextSeq, `version, `disk, `hist
      ensures Abs(txns) == BatchWritten(old(Abs(txns)), old(Abs(txns)).process.live, entries)
      ensures nextSeq == old(nextSeq) + |entries| && hist == old(hist) + Numbered(entries, old(nextSeq))
      ensures version.active.rows == old(version).active.rows + Numbered(entries, old(nextSeq))
      ensures version.active.id in disk.wals && disk.wals[version.active.id] == version.active.rows
    {
      var start := nextSeq;
      nextSeq := nextSeq + |entries|;
      Append(Numbered(entries, start));
    }

    /** Nothing to freeze in an empty memtable; otherwise a fresh one takes over with the next log. */
    method FreezeActive(ghost txns: map<nat, Txn>) returns (frozen: Option<Table>)
      modifies `version, `disk
      ensures frozen.None? <==> old(version).active.rows == []
      ensures frozen.None? ==> Abs(txns) == old(Abs(txns))
      ensures frozen.Some? ==> frozen.value == old(version).active && version.imms == old(version).imms + [frozen.value]
      ensures frozen.Some? ==> Steps(old(Abs(txns)), [Freeze], Abs(txns))
      ensures frozen.Some? && old(Inv(Abs(txns))) ==>
                && version == Version(Table(frozen.value.id + 1, []), old(version).imms + [frozen.value], old(version).ssts)
                && disk == old(disk).(wals := old(disk).wals[frozen.value.id + 1 := []])
    {
      if version.active.rows == [] { return None; }
      NextLogIsNew(Abs(txns));
      OneStep(Abs(txns), Freeze);
      var n := version.active.id + 1;
      var rows := LogRows(disk.wals, n);
      frozen := Some(version.active);
      disk := disk.(wals := disk.wals[n := rows]);
      version := Version(Table(n, rows), version.imms + [version.active], version.ssts);
    }

    /** The highest number a key has anywhere; of a key that has not expired, in the whole history. */
    method VisibleSeq(key: Key, ghost txns: map<nat, Txn>) returns (best: Option<nat>)
      requires Inv(Abs(txns))
      ensures best == SeqOption(NewestOf(Sources(Abs(txns).process.live), key))
      ensures !Expired(key, floor) ==> HighestOf(hist, key, best)
    {
      ghost var v := Abs(txns).process.live;
      LiveFromOne(Abs(txns));
      best := HighestSeq(version.active, version.imms, version.ssts, key);
      SourcesShowHistory(hist, commits, floor, disk, v);
      if !Expired(key, floor) {
        SameViewNewest(RowsOf(Sources(v)), hist, floor, key);
        NewestIsHighest(hist, key);
      }
    }

    /**
     A point read: what the row found by the loop has, unless the cutoff has passed the key; see `Reads.GetIsNewestIff` for
     when that row is the newest version. Where ranges of numbers do not overlap, it is what the history has.
     */
    method Get(key: Key, cutoff: Option<I64>, ghost txns: map<nat, Txn>) returns (value: Option<Bytes>)
      ensures var found := VisitAll(Sources(Abs(txns).process.live), key);
              forall x :: value == Some(x) <==>
                (cutoff.Some? ==> key.ts >= cutoff.value) && found.Some? && found.value.value == Some(x)
      ensures Inv(Abs(txns)) && Separation.Layered(Abs(txns).process.live) && !Expired(key, floor) ==>
                forall x :: value == Some(x) <==> (cutoff.Some? ==> key.ts >= cutoff.value) && HasValue(hist, key, x)
    {
      ghost var s := Abs(txns);
      if Inv(s) && Separation.Layered(s.process.live) && !Expired(key, floor) {
        Separation.LayeredGet(s, key);
        HasValueMeans(hist, key, if Newest(hist, key).Some? then Newest(hist, key).value.value else None);
      }
      if cutoff.Some? && key.ts < cutoff.value { return None; }
      var best := LastFound(version.active, version.imms, version.ssts, key);
      value := if best.Some? then best.value.value else None;
    }

    /** A transaction at the current number, over a snapshot of every source. */
    method Begin(ghost txns: map<nat, Txn>, ghost t: nat) returns (txn: Transaction, ghost full: seq<seq<Row>>)
      requires Inv(Abs(txns)) && t !in txns
      ensures fresh(txn) && Steps(Abs(txns), [Label.Begin(t, full)], Abs(txns[t := txn.Value()]))
      ensures txn.snapshotSeq == nextSeq && txn.writes == map[]
      ensures forall k: Key | !Expired(k, floor) ::
                Newest(hist, k) == if k in txn.index then Some(txn.index[k]) else None
    {
      forall u | u in version.ssts ensures Sorted(u.rows) { SstSorted(Abs(txns), u); }
      var sources := SnapshotSources(version.active, version.imms, version.ssts, None, None);
      ghost var parts, kept :| Taken(sources, parts, kept, Sources(Abs(txns).process.live), None, None);
      full := parts;
      AllBatches(sources);
      txn := new Transaction(Flatten(sources), nextSeq);
      OneStep(Abs(txns), Label.Begin(t, full));
      SnapshotComplete(hist, commits, floor, disk, Abs(txns).process.live, full);
      IndexIsNewest(hist, floor, txn.index);
    }

    /** First committer wins: the writes go in unless one of their keys has a version at or above the snapshot. */
    method Commit(txn: Transaction, ghost txns: map<nat, Txn>, ghost t: nat)
      returns (ok: bool, ghost l: Label)
      requires Inv(Abs(txns)) && t in txns && txns[t] == txn.Value()
      modifies this
      ensures Steps(old(Abs(txns)), [l], Abs(txns - {t}))
      ensures ok <==> txn.writes == map[] || !Conflicts(old(Abs(txns)).process.live, old(txn.Value()))
      ensures ok && txn.writes != map[] ==> l.CommitWrites? && l.txn == t
      ensures NoneExpired(txn.writes, floor) ==> (ok <==> Untouched(old(hist), txn.writes, txn.snapshotSeq))
      ensures if ok then AddsWrites(hist, old(hist), old(nextSeq), txn.writes) else hist == old(hist)
    {
      if txn.writes == map[] {
        ok := true;
        l := EndUnwritten(txn, txns, t);
      } else {
        var keys, conflict := FindConflict(txn, txns);
        ok := !conflict;
        l := FinishCommit(txn, keys, ok, txns, t);
      }
    }

    ghost method EndUnwritten(txn: Transaction, txns: map<nat, Txn>, t: nat) returns (l: Label)
      requires t in txns && txns[t].writes == map[]
      ensures Steps(Abs(txns), [l], Abs(txns - {t})) && AddsWrites(hist, hist, nextSeq, map[])
    {
      l := CommitNothing(t);
      NoWrites(hist, nextSeq);
      NothingRun(Abs(txns), Abs(txns).process.live, t);
    }

    /** Looks for a written key with a version at or above the snapshot. */
    method FindConflict(txn: Transaction, ghost txns: map<nat, Txn>) returns (keys: seq<Key>, conflict: bool)
      requires Inv(Abs(txns))
      ensures KeysOf(keys, txn.writes) && (conflict <==> Conflicts(Abs(txns).process.live, txn.Value()))
      ensures NoneExpired(txn.writes, floor) ==> (!conflict <==> Untouched(hist, txn.writes, txn.snapshotSeq))
    {
      ConflictIffTouched(Abs(txns), Abs(txns).process.live, txn.Value());
      keys := OrderedKeys(txn.writes);
      LiveFromOne(Abs(txns));
      conflict := AnyNewer(version.active, version.imms, version.ssts, keys, txn.snapshotSeq);
    }

    /** The writes go in, or the transaction ends without. */
    method FinishCommit(txn: Transaction, keys: seq<Key>, ok: bool, ghost txns: map<nat, Txn>, ghost t: nat)
      returns (ghost l: Label)
      requires t in txns && txns[t] == txn.Value() && txn.writes != map[] && KeysOf(keys, txn.writes)
      requires ok <==> !Conflicts(Abs(txns).process.live, txn.Value())
      modifies this
      ensures Steps(old(Abs(txns)), [l], Abs(txns - {t})) && floor == old(floor)
      ensures ok ==> l.CommitWrites? && l.txn == t
      ensures if ok then AddsWrites(hist, old(hist), old(nextSeq), txn.writes) else hist == old(hist)
    {
      if !ok {
        l := CommitConflict(t);
        OneStep(Abs(txns), l);
        return;
      }
      l := CommitWrites(t, keys);
      CommitRun(Abs(txns), Abs(txns).process.live, t, txn.Value(), keys);
      CommitAddsWrites(hist, keys, txn.Value(), nextSeq);
      AppendCommit(txn, keys, txns, t);
    }

    method AppendCommit(txn: Transaction, keys: seq<Key>, ghost txns: map<nat, Txn>, ghost t: nat)
      requires forall k | k in keys :: k in txn.writes
      modifies this
      ensures floor == old(floor)
      ensures hist == old(hist) + Numbered(Entries(keys, txn.writes), old(nextSeq))
      ensures Abs(txns - {t}) == Committed(old(Abs(txns)), old(Abs(txns)).process.live, t, txn.Value(), keys)
    {
      var start := nextSeq;
      nextSeq := nextSeq + |keys|;
      commits := commits + [Machine.Commit(txn.Value(), start, |hist|)];
      Append(Numbered(Entries(keys, txn.writes), start));
    }

    /** Writes a frozen memtable to a file, publishes it, records it, and removes the log if that succeeds. */
    method FlushOne(imm: Table, removed: bool, ghost txns: map<nat, Txn>) returns (ghost rows: seq<Row>)
      requires Inv(Abs(txns)) && imm in version.imms
      modifies this
      ensures Steps(old(Abs(txns)), FlushLabels(imm.id, rows, removed), Abs(txns))
      ensures version.ssts == old(version).ssts + [Table(old(nextSst), rows)] && Lists(rows, NewestMap(imm.rows))
      ensures forall m :: m in version.imms <==> m in old(version).imms && m.id != imm.id
      ensures version.active == old(version).active
      ensures disk == Disk(old(disk).files[old(nextSst) := rows], Some(Ids(version.ssts)),
                           if removed then old(disk).wals - {imm.id} else old(disk).wals)
      ensures pendingWals == if removed then old(pendingWals) - {imm.id} else old(pendingWals) + {imm.id}
    {
      ghost var s := Abs(txns);
      var batches := Materialise(imm.rows);
      SstFile.OrderedInput(batches);
      var file := SstFile.BuildOrder(batches);
      rows := file;
      FlushRun(s, s.process.live, imm.id, rows, removed);
      PublishFlush(imm.id, file, removed, txns);
    }

    method PublishFlush(n: nat, file: seq<Row>, removed: bool, ghost txns: map<nat, Txn>)
      modifies this
      ensures Abs(txns) == Flushed(old(Abs(txns)), old(Abs(txns)).process.live, n, file, removed)
      ensures version.ssts == old(version).ssts + [Table(old(nextSst), file)]
      ensures forall m :: m in version.imms <==> m in old(version).imms && m.id != n
      ensures version.active == old(version).active
      ensures disk == Disk(old(disk).files[old(nextSst) := file], Some(Ids(version.ssts)),
                           if removed then old(disk).wals - {n} else old(disk).wals)
      ensures pendingWals == if removed then old(pendingWals) - {n} else old(pendingWals) + {n}
    {
      WithoutMembers(version.imms, {n});
      var id := nextSst;
      var ssts := version.ssts + [Table(id, file)];
      nextSst := nextSst + 1;
      version := version.(ssts := ssts, imms := Without(version.imms, {n}));
      disk := disk.(files := disk.files[id := file], manifest := Some(Ids(ssts)));
      pendingWals := pendingWals + {n};
      if removed { disk, pendingWals := disk.(wals := disk.wals - {n}), pendingWals - {n}; }
    }

    /**
     Merges the first window with enough tables into one, without the rows that the cutoff has passed; into none if that
     leaves no row. Does nothing if there is no such window.
     */
    method Compact(window: int, threshold: nat, cutoff: Option<I64>, ghost txns: map<nat, Txn>)
      returns (ghost ls: seq<Label>)
      requires Inv(Abs(txns))
      modifies this
      ensures Steps(old(Abs(txns)), ls, Abs(txns)) && (forall l | l in ls :: CompactLabel(l))
      ensures CutoffsUpTo(ls, Bound(cutoff))
      ensures !Busy(old(version).ssts, window, threshold) ==> Abs(txns) == old(Abs(txns))
      ensures Busy(old(version).ssts, window, threshold) ==> CompactsFrom(old(version).ssts, version.ssts, window, threshold, Bound(cutoff))
      ensures CompactsByTime(old(version).ssts, version.ssts, Size(window), threshold, Bound(cutoff), old(nextSst))
      ensures version.active == old(version).active && version.imms == old(version).imms && disk.wals == old(disk).wals
      ensures Abs(txns) == old(Abs(txns)) || disk.manifest == Some(Ids(version.ssts))
      ensures forall id :: id in pendingSsts <==> id in old(pendingSsts) || Replaces(old(version).ssts, version.ssts, id)
    {
      ghost var s := Abs(txns);
      SstsBelow(s);
      BusyIff(version.ssts, window, threshold);
      var m := MergeWindow(version.ssts, nextSst, window, threshold, cutoff);
      if m.None? {
        ls := [];
        assert Runs(s, []);
        return;
      }
      var MergedWindow(w, targets, rows) := m.value;
      CompactRun(s, s.process.live, window, threshold, w, Bound(cutoff), rows);
      CompactLabelsOk(window, threshold, w, Bound(cutoff), rows);
      ls := CompactLabels(window, threshold, w, Bound(cutoff), rows);
      CompactedMerges(version.ssts, window, threshold, w, Bound(cutoff), Table(nextSst, rows));
      TargetsReplaced(version.ssts, window, w, Table(nextSst, rows));
      PublishCompaction(window, w, Bound(cutoff), targets, rows, txns);
    }

    method PublishCompaction(window: int, w: int, ghost cutoff: I64, targets: set<nat>, rows: seq<Row>,
                             ghost txns: map<nat, Txn>)
      requires targets == Ids(Group(version.ssts, window, w))
      modifies this
      ensures Abs(txns) == CompactedState(old(Abs(txns)), old(Abs(txns)).process.live, window, w, cutoff, rows)
      ensures version.ssts == Compacted(old(version).ssts, window, w, Table(old(nextSst), rows))
      ensures version.active == old(version).active && version.imms == old(version).imms && disk.wals == old(disk).wals
      ensures disk.manifest == Some(Ids(version.ssts)) && pendingSsts == old(pendingSsts) + targets
    {
      floor := Later(floor, cutoff);
      var ssts := Without(version.ssts, targets);
      SeqAssoc(ssts, [], []);
      if rows != [] {
        ssts := ssts + [Table(nextSst, rows)];
        disk := disk.(files := disk.files[nextSst := rows]);
        nextSst := nextSst + 1;
      }
      version := version.(ssts := ssts);
      disk := disk.(manifest := Some(Ids(ssts)));
      pendingSsts := pendingSsts + targets;
    }

    /** `retry_pending_deletes`, for one file that can now be removed. */
    method RemoveSst(id: nat, ghost txns: map<nat, Txn>)
      requires id in pendingSsts
      modifies `pendingSsts, `disk
      ensures Steps(old(Abs(txns)), [Label.RemoveSst(id)], Abs(txns))
      ensures disk == old(disk).(files := old(disk).files - {id}) && pendingSsts == old(pendingSsts) - {id}
    {
      OneStep(Abs(txns), Label.RemoveSst(id));
      disk := disk.(files := disk.files - {id});
      pendingSsts := pendingSsts - {id};
    }
  }
}
