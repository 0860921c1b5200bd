/**
 When `get` is right: sources whose number ranges do not overlap never mislead it, and writes, freezes, flushes, the
 compaction of neighbouring ranges, and crashes of a region at rest with the reopenings after them, keep them so.
 */
module Separation {
  import opened Rows
  import opened Machine
  import opened Invariant
  import opened WorkerSteps
  import opened WriterSteps
  import opened OpenSteps
  import opened Safety
  import opened Reads

  ghost predicate AllBelow(a: seq<Row>, b: seq<Row>) {
    forall p, q | p in a && q in b :: p.seqNo < q.seqNo
  }

  /** Disjoint ranges of numbers. */
  ghost predicate Apart(a: seq<Row>, b: seq<Row>) {
    AllBelow(a, b) || AllBelow(b, a)
  }

  ghost predicate Separated(ts: seq<Table>) {
    ts == [] || (Separated(ts[1..]) && forall t | t in ts[1..] :: Apart(ts[0].rows, t.rows))
  }

  lemma {:induction false} SeparatedConcat(a: seq<Table>, b: seq<Table>)
    ensures Separated(a + b) <==> Separated(a) && Separated(b) && forall x, y | x in a && y in b :: Apart(x.rows, y.rows)
  {
    if a == [] {
      assert a + b == b;
    } else {
      assert (a + b)[1..] == a[1..] + b;
      assert a == [a[0]] + a[1..];
      SeparatedConcat(a[1..], b);
    }
  }

  lemma SeparatedOne(t: Table)
    ensures Separated([t])
  {
    assert [t][1..] == [];
  }

  lemma {:induction false} SeparatedReverse(ts: seq<Table>)
    requires Separated(ts)
    ensures Separated(Reverse(ts))
  {
    if ts != [] {
      SeparatedReverse(ts[1..]);
      ReverseMembers(ts[1..]);
      SeparatedOne(ts[0]);
      SeparatedConcat(Reverse(ts[1..]), [ts[0]]);
    }
  }

  lemma {:induction false} SeparatedAt(ts: seq<Table>, i: nat, j: nat)
    requires Separated(ts) && i < j < |ts|
    ensures Apart(ts[i].rows, ts[j].rows)
  {
    if i == 0 {
      assert ts[1..][j - 1] == ts[j];
    } else {
      SeparatedAt(ts[1..], i - 1, j - 1);
    }
  }

  /** Wherever the newest version is, a lookup there finds it. */
  lemma NewestFound(ts: seq<Table>, k: Key, i: nat)
    requires RowsOk(ts, k) && i < |ts| && NewestOf(ts, k).Some? && NewestOf(ts, k).value in ts[i].rows
    ensures Lookup(ts[i], k) == NewestOf(ts, k)
  {
    NewestOfMeans(ts, k);
    LookupMeans(ts[i], k);
    assert Lookup(ts[i], k).value in TableRows(ts);
  }

  /** The newest version sits in one source, the misleading number and an older version in another, around it. */
  lemma MisleadsOverlap(ts: seq<Table>, k: Key, j: nat) returns (i: nat)
    requires RowsOk(ts, k) && j < |ts| && Misleads(ts, k, j)
    ensures i < |ts| && i != j && !Apart(ts[i].rows, ts[j].rows)
  {
    var newest := NewestOf(ts, k).value;
    NewestOfMeans(ts, k);
    LookupMeans(ts[j], k);
    MaxSeqIsMax(ts[j].rows);
    var here := Lookup(ts[j], k).value;
    var top :| top in ts[j].rows && top.seqNo == MaxSeq(ts[j].rows);
    assert here in TableRows(ts) && here.seqNo < newest.seqNo < top.seqNo;
    var t :| t in ts && newest in t.rows;
    i :| 0 <= i < |ts| && ts[i] == t;
    NewestFound(ts, k, i);
  }

  /** Disjoint ranges never mislead the loop. */
  lemma SeparatedNotMisled(ts: seq<Table>, k: Key)
    requires RowsOk(ts, k) && Separated(ts)
    ensures !Misled(ts, k)
  {
    if Misled(ts, k) {
      var j: nat :| j < |ts| && Misleads(ts, k, j);
      var i := MisleadsOverlap(ts, k, j);
      if i < j { SeparatedAt(ts, i, j); } else { SeparatedAt(ts, j, i); }
    }
  }

  // ---------- Keeping ranges disjoint ----------

  /** The tables below the active memtable have disjoint ranges, all below the active memtable's; none uses a later number. */
  ghost predicate Layered(v: Live) {
    && Separated(v.imms + v.ssts)
    && (forall t | t in v.imms + v.ssts :: AllBelow(t.rows, v.active.rows))
    && (forall t, r | t in [v.active] + (v.imms + v.ssts) && r in t.rows :: r.seqNo < v.nextSeq)
  }

  lemma LayeredSources(v: Live)
    requires Layered(v)
    ensures Separated(Sources(v))
  {
    SeparatedConcat(v.imms, v.ssts);
    SeparatedReverse(v.imms);
    SeparatedReverse(v.ssts);
    ReverseMembers(v.imms);
    ReverseMembers(v.ssts);
    SeparatedConcat(Reverse(v.imms), Reverse(v.ssts));
    var rest := Reverse(v.imms) + Reverse(v.ssts);
    assert Sources(v) == [v.active] + rest;
    assert Sources(v)[1..] == rest;
  }

  /** The sources of a running region are in order for every key that has not expired. */
  lemma LiveSourcesOk(s: State, k: Key)
    requires Inv(s) && s.process.Up? && !Expired(k, s.floor)
    ensures RowsOk(Sources(s.process.live), k)
  {
    SourcesRows(s.process.live);
    assert TableRows(Sources(s.process.live)) <= RowSet(s.hist);
  }

  /** In such a state `get` returns the newest version of every key that has not expired, tombstones included. */
  lemma LayeredGet(s: State, k: Key)
    requires Inv(s) && s.process.Up? && Layered(s.process.live) && !Expired(k, s.floor)
    ensures VisitAll(Sources(s.process.live), k) == Newest(s.hist, k)
  {
    var ts := Sources(s.process.live);
    LayeredSources(s.process.live);
    LiveSourcesOk(s, k);
    SeparatedNotMisled(ts, k);
    GetIsNewestIff(ts, k);
    SourcesShowHistory(s.hist, s.commits, s.floor, s.disk, s.process.live);
    SameViewNewest(RowsOf(ts), s.hist, s.floor, k);
  }

  lemma AppendLayered(v: Live, rows: seq<Row>, v': Live)
    requires Layered(v) && v'.imms == v.imms && v'.ssts == v.ssts && v'.active.rows == v.active.rows + rows
    requires v.nextSeq <= v'.nextSeq && forall r | r in rows :: v.nextSeq <= r.seqNo < v'.nextSeq
    ensures Layered(v')
  {
    forall t, r | t in v.imms + v.ssts && r in t.rows ensures r.seqNo < v.nextSeq {
      assert t in [v.active] + (v.imms + v.ssts);
    }
    assert v.active in [v.active] + (v.imms + v.ssts);
  }

  lemma FreezeLayered(v: Live, id: nat)
    requires Layered(v)
    ensures Layered(v.(active := Table(id, []), imms := v.imms + [v.active]))
  {
    SeparatedConcat(v.imms, v.ssts);
    SeparatedOne(v.active);
    SeparatedConcat(v.imms, [v.active]);
    SeparatedConcat(v.imms + [v.active], v.ssts);
  }

  lemma {:induction false} WithoutSeparated(ts: seq<Table>, ids: set<nat>)
    requires Separated(ts)
    ensures Separated(Without(ts, ids))
  {
    if ts != [] {
      WithoutSeparated(ts[1..], ids);
      WithoutMembers(ts[1..], ids);
      var rest := Without(ts[1..], ids);
      if ts[0].id !in ids {
        assert Without(ts, ids)[1..] == rest;
      }
    }
  }

  lemma OthersApart(ts: seq<Table>, t: Table, m: Table)
    requires Separated(ts) && t in ts && m in ts && t != m
    ensures Apart(t.rows, m.rows)
  {
    var i :| 0 <= i < |ts| && ts[i] == t;
    var j :| 0 <= j < |ts| && ts[j] == m;
    if i < j { SeparatedAt(ts, i, j); } else { SeparatedAt(ts, j, i); }
  }

  lemma PartApart(a: seq<Row>, b: seq<Row>, part: seq<Row>)
    requires Apart(a, b) && RowSet(part) <= RowSet(b)
    ensures Apart(a, part)
  {
    assert forall r | r in part :: r in RowSet(part);
  }

  lemma FlushLayered(v: Live, m: Table, sst: Table)
    requires Layered(v) && Ascending(v.imms) && m in v.imms && RowSet(sst.rows) <= RowSet(m.rows)
    ensures Layered(v.(imms := Without(v.imms, {m.id}), ssts := v.ssts + [sst]))
  {
    var imms' := Without(v.imms, {m.id});
    WithoutMembers(v.imms, {m.id});
    SeparatedConcat(v.imms, v.ssts);
    WithoutSeparated(v.imms, {m.id});
    forall t | t in imms' + v.ssts ensures Apart(t.rows, sst.rows) {
      if t in imms' { OthersApart(v.imms, t, m); }
      PartApart(t.rows, m.rows, sst.rows);
    }
    SeparatedConcat(imms', v.ssts);
    SeparatedOne(sst);
    SeparatedConcat(imms' + v.ssts, [sst]);
    assert imms' + v.ssts + [sst] == imms' + (v.ssts + [sst]);
    assert forall r | r in sst.rows :: r in RowSet(sst.rows);
  }

  /** No other table has a number between two of the group's. */
  ghost predicate Neighbours(v: Live, targets: set<nat>) {
    forall t | t in v.imms + Without(v.ssts, targets) :: Apart(t.rows, RowsOf(Only(v.ssts, targets)))
  }

  lemma {:induction false} OnlyMembers(ts: seq<Table>, ids: set<nat>)
    ensures forall t :: t in Only(ts, ids) <==> t in ts && t.id in ids
  {
    if ts != [] {
      OnlyMembers(ts[1..], ids);
      assert ts == [ts[0]] + ts[1..];
    }
  }

  lemma CompactLayered(v: Live, targets: set<nat>, sst: Table)
    requires Layered(v) && Neighbours(v, targets) && RowSet(sst.rows) <= TargetRows(v.ssts, targets)
    ensures Layered(v.(ssts := Without(v.ssts, targets) + [sst]))
  {
    var kept := Without(v.ssts, targets);
    SeparatedConcat(v.imms, v.ssts);
    WithoutMembers(v.ssts, targets);
    WithoutSeparated(v.ssts, targets);
    OnlyMembers(v.ssts, targets);
    RowsOfMembers(Only(v.ssts, targets));
    SeparatedConcat(v.imms, kept);
    forall t | t in v.imms + kept ensures Apart(t.rows, sst.rows) {
      PartApart(t.rows, RowsOf(Only(v.ssts, targets)), sst.rows);
    }
    SeparatedOne(sst);
    SeparatedConcat(v.imms + kept, [sst]);
    assert v.imms + kept + [sst] == v.imms + (kept + [sst]);
    forall r | r in sst.rows ensures r in TargetRows(v.ssts, targets) { assert r in RowSet(sst.rows); }
  }

  lemma DropLayered(v: Live, targets: set<nat>)
    requires Layered(v)
    ensures Layered(v.(ssts := Without(v.ssts, targets)))
  {
    SeparatedConcat(v.imms, v.ssts);
    WithoutMembers(v.ssts, targets);
    WithoutSeparated(v.ssts, targets);
    SeparatedConcat(v.imms, Without(v.ssts, targets));
  }

  // ---------- Crashes and reopenings ----------

  /** The files that reopening would load have disjoint ranges, and all that the logs hold is above them. */
  ghost predicate Stacked(disk: Disk) {
    && (forall i, j | i in Loaded(disk) && j in Loaded(disk) && i != j :: Apart(disk.files[i], disk.files[j]))
    && (forall i, n | i in Loaded(disk) && n in disk.wals :: AllBelow(disk.files[i], disk.wals[n]))
  }

  /**
   A crash now would leave a tidy disk: reopening would load just the tables of the version, and the rows of every log are
   newer than theirs. So it is if no flushed memtable's log is left and memtables are flushed from the oldest on.
   */
  ghost predicate AtRest(s: State)
    requires s.process.Up?
  {
    var ssts := s.process.live.ssts;
    && Loaded(s.disk) == Ids(ssts)
    && forall t, n | t in ssts && n in s.disk.wals :: AllBelow(t.rows, s.disk.wals[n])
  }

  /** Without expiry, a region with nothing to flush, an idle worker and no log but the active one's is at rest. */
  lemma RestWhenIdle(s: State)
    requires Inv(s) && s.process.Up? && s.floor == I64_MIN && Layered(s.process.live)
    requires s.process.live.job == Idle && s.process.live.imms == [] && s.disk.wals.Keys == {s.process.live.active.id}
    ensures AtRest(s)
  {
    var v := s.process.live;
    assert [] + v.ssts == v.ssts;
    IdleLoads(s.disk, v.ssts, v.nextSst, v.doomedSsts);
  }

  lemma IdleLoads(disk: Disk, ssts: seq<Table>, nextSst: nat, doomed: set<nat>)
    requires SstsOk(I64_MIN, disk, ssts, nextSst, Idle, doomed)
    ensures Loaded(disk) == Ids(ssts)
  {
    forall id | id in disk.files ensures IsLoaded(disk, id) <==> id in Ids(ssts) {
      if id !in Ids(ssts) { assert Stale(Ids(ssts), id); }
    }
  }

  lemma CrashStacked(s: State)
    requires Inv(s) && s.process.Up? && Layered(s.process.live) && AtRest(s)
    ensures Stacked(s.disk)
  {
    var v := s.process.live;
    SeparatedConcat(v.imms, v.ssts);
    forall i, j | i in Loaded(s.disk) && j in Loaded(s.disk) && i != j ensures Apart(s.disk.files[i], s.disk.files[j]) {
      var t :| t in v.ssts && t.id == i;
      var u :| u in v.ssts && u.id == j;
      OthersApart(v.ssts, t, u);
    }
    forall i, n | i in Loaded(s.disk) && n in s.disk.wals ensures AllBelow(s.disk.files[i], s.disk.wals[n]) {
      var t :| t in v.ssts && t.id == i;
    }
  }

  /** Logs that hold only rows held before, if any, change nothing. */
  lemma StackedLogs(disk: Disk, wals: map<nat, seq<Row>>)
    requires Stacked(disk) && forall n, r | n in wals && r in wals[n] :: r in WalRows(disk.wals)
    ensures Stacked(disk.(wals := wals))
  {
    SameLoaded(disk, wals);
    forall i, n | i in Loaded(disk) && n in wals ensures AllBelow(disk.files[i], wals[n]) {
      forall p, q | p in disk.files[i] && q in wals[n] ensures p.seqNo < q.seqNo {
        assert q in WalRows(disk.wals);
        var m :| m in disk.wals && q in disk.wals[m];
        assert AllBelow(disk.files[i], disk.wals[m]);
      }
    }
  }

  lemma OpeningStacked(s: State, r: Recovery, l: Label)
    requires Inv(s) && s.process == Opening(r) && OpeningEnabled(s, r, l) && Stacked(s.disk) && !l.OpenDone?
    ensures Stacked(OpeningStep(s, r, l).disk)
  {
    var wals := OpeningStep(s, r, l).disk.wals;
    forall n, q | n in wals && q in wals[n] ensures q in WalRows(s.disk.wals) {
      if l.OrphanRow? && q == r.latest[l.key] {
        assert q in s.disk.wals[r.current.value];
      } else {
        assert n in s.disk.wals && q in s.disk.wals[n];
      }
    }
    StackedLogs(s.disk, wals);
  }

  lemma {:induction false} SeparatedPairs(ts: seq<Table>)
    requires forall i, j | 0 <= i < j < |ts| :: Apart(ts[i].rows, ts[j].rows)
    ensures Separated(ts)
  {
    if ts != [] {
      forall i, j | 0 <= i < j < |ts| - 1 ensures Apart(ts[1..][i].rows, ts[1..][j].rows) {
        assert Apart(ts[i + 1].rows, ts[j + 1].rows);
      }
      SeparatedPairs(ts[1..]);
      forall t | t in ts[1..] ensures Apart(ts[0].rows, t.rows) {
        var i :| 0 <= i < |ts| - 1 && ts[1..][i] == t;
        assert ts[i + 1] == t;
      }
    }
  }

  lemma HandlesSeparated(ts: seq<Table>, disk: Disk)
    requires Stacked(disk) && Handles(ts, Loaded(disk), disk.files)
    ensures Separated(ts)
  {
    forall i, j | 0 <= i < j < |ts| ensures Apart(ts[i].rows, ts[j].rows) {
      assert ts[i] in ts && ts[j] in ts && ts[i].id in Ids(ts) && ts[j].id in Ids(ts);
    }
    SeparatedPairs(ts);
  }

  /** The region that comes up has the merged logs in its memtable, above all its tables. */
  lemma ReopenedLayered(s: State, r: Recovery)
    requires Inv(s) && s.process == Opening(r) && OpeningEnabled(s, r, OpenDone) && Stacked(s.disk)
    ensures Layered(OpeningStep(s, r, OpenDone).process.live)
  {
    var v := OpeningStep(s, r, OpenDone).process.live;
    HandlesSeparated(r.ssts, s.disk);
    assert [] + r.ssts == r.ssts;
    forall t | t in r.ssts ensures AllBelow(t.rows, r.active.rows) { assert t.id in Ids(r.ssts); }
    NumbersFound(r.active, r.ssts);
  }

  lemma NumbersFound(active: Table, ssts: seq<Table>)
    ensures forall t, q | t in [active] + ssts && q in t.rows :: q.seqNo <= MaxSeq(active.rows + RowsOf(ssts))
  {
    MaxSeqIsMax(active.rows + RowsOf(ssts));
    RowsOfMembers(ssts);
    forall t, q | t in [active] + ssts && q in t.rows ensures q in active.rows + RowsOf(ssts) {
      if t in ssts { assert q in TableRows(ssts) && q in RowSet(RowsOf(ssts)); }
    }
  }

  // ---------- Runs ----------

  /** A step that needs no partner and, if it publishes a compaction, one of neighbouring ranges. */
  ghost predicate CalmStep(s: State, l: Label) {
    && s.process.Up? && !l.Crash? && !l.Allocate? && !l.Insert?
    && (l.CompactPublish? && s.process.live.job.CompactWritten? ==> Neighbours(s.process.live, s.process.live.job.targets))
  }

  /** A crash has to find the region at rest; reopening may go any way, and may be cut short by crashes itself. */
  ghost predicate CalmLabel(s: State, l: Label) {
    s.process.Up? ==> if l.Crash? then AtRest(s) else CalmStep(s, l)
  }

  /** A run of such steps in which a single-key write takes its number and inserts its row in one go. */
  ghost predicate CalmRun(s: State, ls: seq<Label>)
    decreases |ls|
  {
    if ls == [] then true
    else if !Enabled(s, ls[0]) then false
    else if ls[0].Allocate? && s.process.Up? then
      && |ls| >= 2 && ls[1] == Insert(s.process.live.nextSeq) && Enabled(Step(s, ls[0]), ls[1])
      && CalmRun(Step(Step(s, ls[0]), ls[1]), ls[2..])
    else CalmLabel(s, ls[0]) && CalmRun(Step(s, ls[0]), ls[1..])
  }

  /** Ranges are disjoint in a running region, and on the disk of one that is not. */
  ghost predicate Tidy(s: State) {
    if s.process.Up? then Layered(s.process.live) else Stacked(s.disk)
  }

  lemma WriteLayered(s: State, key: Key, value: Option<Bytes>)
    requires s.process.Up? && Layered(s.process.live)
    requires Enabled(Step(s, Allocate(key, value)), Insert(s.process.live.nextSeq))
    ensures Layered(Step(Step(s, Allocate(key, value)), Insert(s.process.live.nextSeq)).process.live)
  {
    var v := s.process.live;
    AppendLayered(v, [Row(key, v.nextSeq, value)],
                  Step(Step(s, Allocate(key, value)), Insert(v.nextSeq)).process.live);
  }

  lemma WriterLayered(s: State, l: Label)
    requires CalmStep(s, l) && Enabled(s, l) && Layered(s.process.live)
    requires !FlushLabel(l) && !CompactLabel(l)
    ensures Step(s, l).process.Up? && Layered(Step(s, l).process.live)
  {
    var v := s.process.live;
    var v' := Step(s, l).process.live;
    if l.WriteBatch? {
      NumberedRows(l.entries, v.nextSeq, s.floor);
      AppendLayered(v, Numbered(l.entries, v.nextSeq), v');
    } else if l.CommitWrites? {
      NumberedRows(Entries(l.keys, v.txns[l.txn].writes), v.nextSeq, s.floor);
      AppendLayered(v, Numbered(Entries(l.keys, v.txns[l.txn].writes), v.nextSeq), v');
    }
  }

  lemma PublishLayered(s: State)
    requires Inv(s) && s.process.Up? && Enabled(s, FlushPublish) && Layered(s.process.live)
    ensures Step(s, FlushPublish).process.Up? && Layered(Step(s, FlushPublish).process.live)
  {
    var v := s.process.live;
    var m :| m in v.imms && m.id == v.job.wal && Covers(RowSet(m.rows), RowSet(s.disk.files[v.job.id]), s.floor);
    FlushLayered(v, m, Table(v.job.id, s.disk.files[v.job.id]));
  }

  lemma FlushStepLayered(s: State, l: Label)
    requires Inv(s) && CalmStep(s, l) && Enabled(s, l) && Layered(s.process.live) && FlushLabel(l)
    ensures Step(s, l).process.Up? && Layered(Step(s, l).process.live)
  {
    var v := s.process.live;
    if l.Freeze? {
      FreezeOk(s.hist, s.commits, s.floor, s.disk, v);
      FreezeLayered(v, v.active.id + 1);
    } else if l.FlushPublish? {
      PublishLayered(s);
    } else {
      SameTables(v, Step(s, l).process.live);
    }
  }

  /** What the ranges depend on. */
  lemma SameTables(v: Live, w: Live)
    requires Layered(v) && w.active == v.active && w.imms == v.imms && w.ssts == v.ssts && w.nextSeq == v.nextSeq
    ensures Layered(w)
  {
  }

  lemma ReplaceLayered(s: State, v: Live)
    requires Inv(s) && s.process == Up(v) && Layered(v) && LiveEnabled(s, v, CompactPublish) && v.job.CompactWritten?
    requires Neighbours(v, v.job.targets)
    ensures LiveStep(s, v, CompactPublish).process.Up? && Layered(LiveStep(s, v, CompactPublish).process.live)
  {
    var sst := Table(v.job.id, s.disk.files[v.job.id]);
    CompactLayered(v, v.job.targets, sst);
    SameTables(v.(ssts := Without(v.ssts, v.job.targets) + [sst]), LiveStep(s, v, CompactPublish).process.live);
  }

  lemma RemoveLayered(s: State, v: Live)
    requires s.process == Up(v) && Layered(v) && LiveEnabled(s, v, CompactPublish) && v.job.Merging?
    ensures LiveStep(s, v, CompactPublish).process.Up? && Layered(LiveStep(s, v, CompactPublish).process.live)
  {
    DropLayered(v, v.job.targets);
    SameTables(v.(ssts := Without(v.ssts, v.job.targets)), LiveStep(s, v, CompactPublish).process.live);
  }

  lemma CompactStepLayered(s: State, l: Label)
    requires Inv(s) && CalmStep(s, l) && Enabled(s, l) && Layered(s.process.live) && CompactLabel(l)
    ensures Step(s, l).process.Up? && Layered(Step(s, l).process.live)
  {
    var v := s.process.live;
    if l.CompactPublish? {
      if v.job.Merging? { RemoveLayered(s, v); } else { ReplaceLayered(s, v); }
    } else {
      SameTables(v, Step(s, l).process.live);
    }
  }

  lemma CalmStepLayered(s: State, l: Label)
    requires Inv(s) && CalmStep(s, l) && Enabled(s, l) && Layered(s.process.live)
    ensures Inv(Step(s, l)) && Step(s, l).process.Up? && Layered(Step(s, l).process.live)
  {
    StepOk(s, l);
    if FlushLabel(l) {
      FlushStepLayered(s, l);
    } else if CompactLabel(l) {
      CompactStepLayered(s, l);
    } else {
      WriterLayered(s, l);
    }
  }

  lemma CalmWriteLayered(s: State, l: Label, next: Label)
    requires Inv(s) && s.process.Up? && l.Allocate? && Enabled(s, l) && Layered(s.process.live)
    requires next == Insert(s.process.live.nextSeq) && Enabled(Step(s, l), next)
    ensures Inv(Step(Step(s, l), next)) && Step(Step(s, l), next).process.Up?
    ensures Layered(Step(Step(s, l), next).process.live)
  {
    StepOk(s, l);
    StepOk(Step(s, l), next);
    WriteLayered(s, l.key, l.value);
  }

  lemma StartStacked(s: State, l: Label)
    requires s.process == Down && Enabled(s, l) && Stacked(s.disk)
    ensures Step(s, l).process.Opening? && Stacked(Step(s, l).disk)
  {
    StackedLogs(s.disk, WalsAtOpen(s.disk));
  }

  lemma CalmLabelTidy(s: State, l: Label)
    requires Inv(s) && CalmLabel(s, l) && Enabled(s, l) && Tidy(s)
    ensures Inv(Step(s, l)) && Tidy(Step(s, l)) && (s.process.Up? && !l.Crash? ==> Step(s, l).process.Up?)
  {
    StepOk(s, l);
    match s.process
    case Down => StartStacked(s, l);
    case Opening(r) => if l.OpenDone? { ReopenedLayered(s, r); } else { OpeningStacked(s, r, l); }
    case Up(_) => if l.Crash? { CrashStacked(s); } else { CalmStepLayered(s, l); }
  }

  lemma {:induction false} CalmRunTidy(s: State, ls: seq<Label>)
    requires Inv(s) && Tidy(s) && Runs(s, ls) && CalmRun(s, ls)
    ensures Inv(Run(s, ls)) && Tidy(Run(s, ls))
    ensures s.process.Up? && (forall l | l in ls :: !l.Crash?) ==> Run(s, ls).process.Up?
    decreases |ls|
  {
    if ls != [] {
      var s' := Step(s, ls[0]);
      if ls[0].Allocate? && s.process.Up? {
        CalmWriteLayered(s, ls[0], ls[1]);
        assert ls[1..][0] == ls[1] && ls[1..][1..] == ls[2..];
        CalmRunTidy(Step(s', ls[1]), ls[2..]);
      } else {
        CalmLabelTidy(s, ls[0]);
        CalmRunTidy(s', ls[1..]);
      }
    }
  }

  /** A region that has just been opened for the first time has nothing to overlap. */
  lemma OpenedIsLayered()
    ensures Inv(OPENED) && Layered(OPENED.process.live)
  {
    FirstOpen();
    ReachableOk(OPENED);
  }

  ghost predicate Found(r: Option<Row>, x: Bytes) {
    r.Some? && r.value.value == Some(x)
  }

  /** The loop of `get` ends with a row that has this value. */
  ghost predicate FoundValue(v: Live, k: Key, x: Bytes) {
    Found(VisitAll(Sources(v), k), x)
  }

  /**
   From the first open on, after any run of atomic writes, batches, commits, freezes, flushes, compactions of neighbouring
   ranges, crashes of a region at rest and reopenings, `get` returns the newest version ever written of every key that no
   cutoff used has passed.
   */
  lemma CalmRunGet(ls: seq<Label>, cutoff: I64, k: Key)
    requires Runs(OPENED, ls) && CalmRun(OPENED, ls) && CutoffsUpTo(ls, cutoff) && !Expired(k, cutoff)
    ensures (forall l | l in ls :: !l.Crash?) ==> Run(OPENED, ls).process.Up?
    ensures Run(OPENED, ls).process.Up? ==>
              && VisitAll(Sources(Run(OPENED, ls).process.live), k) == Newest(AddsOf(OPENED, ls), k)
              && forall x :: FoundValue(Run(OPENED, ls).process.live, k, x) <==> HasValue(AddsOf(OPENED, ls), k, x)
  {
    var s := Run(OPENED, ls);
    OpenedIsLayered();
    CalmRunTidy(OPENED, ls);
    FloorUpTo(OPENED, ls, cutoff);
    if s.process.Up? { LayeredGet(s, k); }
    AddsOfAre(OPENED, ls);
    SeqAssoc(AddsOf(OPENED, ls), [], []);
    forall x ensures HasValue(AddsOf(OPENED, ls), k, x) <==> Found(Newest(AddsOf(OPENED, ls), k), x) {
      HasValueIff(AddsOf(OPENED, ls), k, x);
    }
  }
}
