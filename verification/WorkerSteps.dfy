/** The background worker's steps, file removals and freezing keep the invariant. */
module WorkerSteps {
  import opened Rows
  import opened Machine
  import opened Invariant

  // ---------- Lists of tables ----------

  lemma {:induction false} WithoutMembers(ts: seq<Table>, ids: set<nat>)
    ensures forall t :: t in Without(ts, ids) <==> t in ts && t.id !in ids
  {
    if ts != [] {
      WithoutMembers(ts[1..], ids);
      assert ts == [ts[0]] + ts[1..];
    }
  }

  lemma {:induction false} WithoutAscending(ts: seq<Table>, ids: set<nat>)
    requires Ascending(ts)
    ensures Ascending(Without(ts, ids))
  {
    if ts != [] {
      WithoutAscending(ts[1..], ids);
      WithoutMembers(ts[1..], ids);
      var rest := Without(ts[1..], ids);
      forall i | 0 <= i < |rest| ensures ts[0].id < rest[i].id {
        assert rest[i] in ts[1..];
      }
    }
  }

  lemma AscendingAppend(ts: seq<Table>, t: Table)
    requires Ascending(ts) && forall u | u in ts :: u.id < t.id
    ensures Ascending(ts + [t])
  {
  }

  lemma AscendingDistinct(ts: seq<Table>, a: Table, b: Table)
    requires Ascending(ts) && a in ts && b in ts && a.id == b.id
    ensures a == b
  {
  }

  lemma {:induction false} GroupMembers(ts: seq<Table>, window: int, w: int)
    ensures forall t :: t in Group(ts, window, w) <==> t in ts && t.rows != [] && WindowOf(t, window) == w
  {
    if ts != [] {
      GroupMembers(ts[1..], window, w);
      assert ts == [ts[0]] + ts[1..];
    }
  }

  lemma {:induction false} RowsOfMembers(ts: seq<Table>)
    ensures RowSet(RowsOf(ts)) == TableRows(ts)
  {
    if ts != [] {
      RowsOfMembers(ts[1..]);
      assert ts == [ts[0]] + ts[1..];
      forall r ensures r in RowSet(RowsOf(ts)) <==> r in TableRows(ts) {
        assert r in RowSet(RowsOf(ts)) <==> r in ts[0].rows || r in TableRows(ts[1..]);
      }
    }
  }

  lemma {:induction false} RowsOfSnoc(ts: seq<Table>, t: Table)
    ensures RowsOf(ts + [t]) == RowsOf(ts) + t.rows
  {
    if ts == [] {
      assert [] + [t] == [t] && [t][1..] == [] && t.rows + [] == t.rows && [] + t.rows == t.rows;
    } else {
      assert (ts + [t])[1..] == ts[1..] + [t];
      RowsOfSnoc(ts[1..], t);
      assert ts[0].rows + (RowsOf(ts[1..]) + t.rows) == (ts[0].rows + RowsOf(ts[1..])) + t.rows;
    }
  }

  lemma ConsistentPart(h: set<Row>, part: set<Row>, floor: I64)
    requires Consistent(h, floor) && part <= h
    ensures Consistent(part, floor)
  {
  }

  lemma ConsistentLater(h: set<Row>, floor: I64, later: I64)
    requires Consistent(h, floor) && floor <= later
    ensures Consistent(h, later)
  {
  }

  /** A listing of part of the history covers it, and has rows if it does. */
  lemma ListedPart(hist: seq<Row>, floor: I64, rows: seq<Row>, out: seq<Row>)
    requires HistOk(hist, floor) && RowSet(rows) <= RowSet(hist) && Lists(out, NewestMap(rows))
    ensures Covers(RowSet(rows), RowSet(out), floor)
    ensures rows != [] ==> out != []
  {
    ConsistentPart(RowSet(hist), RowSet(rows), floor);
    ListingCovers(rows, out, floor);
    if rows != [] {
      NewestIsLargest(rows, rows[0]);
    }
  }

  lemma NewFile(hist: seq<Row>, disk: Disk, id: nat, rows: seq<Row>)
    requires DiskOk(hist, disk) && rows != [] && Sorted(rows) && RowSet(rows) <= RowSet(hist)
    ensures DiskOk(hist, disk.(files := disk.files[id := rows]))
  {
    assert forall r | r in rows :: r in RowSet(rows);
  }

  // ---------- Flush ----------

  lemma FlushWriteOk(hist: seq<Row>, commits: seq<Commit>, floor: I64, disk: Disk, v: Live, n: nat, rows: seq<Row>, m: Table)
    requires HistOk(hist, floor) && LiveOk(hist, commits, floor, disk, v)
    requires v.job == Idle && m in v.imms && m.id == n && Lists(rows, NewestMap(m.rows))
    ensures LiveOk(hist, commits, floor, disk.(files := disk.files[v.nextSst := rows]),
                   v.(nextSst := v.nextSst + 1, job := FlushWritten(n, v.nextSst)))
  {
    assert RowSet(m.rows) <= LiveRows(v.active, v.imms, v.ssts);
    ListedPart(hist, floor, m.rows, rows);
    NewFile(hist, disk, v.nextSst, rows);
    assert Pending(FlushWritten(n, v.nextSst)) == {v.nextSst};
    assert forall id | id in Ids(v.ssts) :: id in disk.files;
  }

  lemma FlushedSsts(floor: I64, disk: Disk, ssts: seq<Table>, nextSst: nat, wal: nat, id: nat, doomed: set<nat>)
    requires SstsOk(floor, disk, ssts, nextSst, FlushWritten(wal, id), doomed)
    requires id in disk.files && id !in Ids(ssts)
    ensures SstsOk(floor, disk, ssts + [Table(id, disk.files[id])], nextSst, FlushPublished(wal, id), doomed)
    ensures Ids(ssts + [Table(id, disk.files[id])]) == Ids(ssts) + {id}
  {
    var sst := Table(id, disk.files[id]);
    forall u | u in ssts ensures u.id < id { assert u.id in Ids(ssts); }
    AscendingAppend(ssts, sst);
    assert Ids(ssts + [sst]) - {id} == Ids(ssts);
  }

  lemma FlushedCover(hist: seq<Row>, floor: I64, v: Live, m: Table, sst: Table)
    requires Covers(RowSet(hist), LiveRows(v.active, v.imms, v.ssts), floor) && Ascending(v.imms) && m in v.imms
    requires Covers(RowSet(m.rows), RowSet(sst.rows), floor)
    ensures Covers(RowSet(hist), LiveRows(v.active, Without(v.imms, {m.id}), v.ssts + [sst]), floor)
  {
    WithoutMembers(v.imms, {m.id});
    forall u | u in v.imms && u.id == m.id ensures u == m { AscendingDistinct(v.imms, u, m); }
    assert TableRows(v.ssts + [sst]) == TableRows(v.ssts) + RowSet(sst.rows);
    CoverReplace(RowSet(hist), LiveRows(v.active, v.imms, v.ssts), RowSet(m.rows), RowSet(sst.rows),
                 LiveRows(v.active, Without(v.imms, {m.id}), v.ssts + [sst]), floor);
  }

  lemma FlushPublishOk(hist: seq<Row>, commits: seq<Commit>, floor: I64, disk: Disk, v: Live)
    requires LiveOk(hist, commits, floor, disk, v)
    requires v.job.FlushWritten? && v.job.id in disk.files
    ensures LiveOk(hist, commits, floor, disk,
                   v.(ssts := v.ssts + [Table(v.job.id, disk.files[v.job.id])], imms := Without(v.imms, {v.job.wal}),
                      job := FlushPublished(v.job.wal, v.job.id)))
  {
    var id, wal := v.job.id, v.job.wal;
    WithoutMembers(v.imms, {wal});
    WithoutAscending(v.imms, {wal});
    var m :| m in v.imms && m.id == wal && Covers(RowSet(m.rows), RowSet(disk.files[id]), floor);
    FlushedSsts(floor, disk, v.ssts, v.nextSst, wal, id, v.doomedSsts);
    FlushedCover(hist, floor, v, m, Table(id, disk.files[id]));
    assert m.id in Ids(v.imms);
  }

  lemma FlushFinishOk(hist: seq<Row>, commits: seq<Commit>, floor: I64, disk: Disk, v: Live)
    requires LiveOk(hist, commits, floor, disk, v) && v.job.FlushPublished?
    ensures LiveOk(hist, commits, floor, disk.(manifest := Some(Ids(v.ssts))),
                   v.(job := Idle, doomedWals := v.doomedWals + {v.job.wal}))
  {
    var id := v.job.id;
    if floor == I64_MIN {
      forall f | f in disk.files ensures f in Ids(v.ssts) || Stale(Ids(v.ssts), f) {
        assert f in Tracked(Ids(v.ssts), v.job) || f in Pending(v.job) || Stale(Tracked(Ids(v.ssts), v.job), f);
      }
    }
  }

  // ---------- Compaction ----------

  lemma GroupTargets(ssts: seq<Table>, window: int, w: int)
    requires Ascending(ssts)
    ensures var group := Group(ssts, window, w);
            TargetRows(ssts, Ids(group)) == RowSet(RowsOf(group)) && Ids(group) <= Ids(ssts)
  {
    var group := Group(ssts, window, w);
    GroupMembers(ssts, window, w);
    RowsOfMembers(group);
    forall t | t in ssts && t.id in Ids(group) ensures t in group {
      var u :| u in group && u.id == t.id;
      AscendingDistinct(ssts, t, u);
    }
  }

  /** Of some rows, the newest ones that the cutoff spares are enough from that cutoff on. */
  lemma MergedCovers(hist: seq<Row>, floor: I64, rows: seq<Row>, cutoff: I64, merged: seq<Row>, later: I64)
    requires HistOk(hist, floor) && RowSet(rows) <= RowSet(hist)
    requires Lists(merged, NewestMap(Unexpired(rows, cutoff))) && floor <= later && cutoff <= later
    ensures Covers(RowSet(rows), RowSet(merged), later)
    ensures rows != [] && cutoff == I64_MIN ==> merged != []
  {
    var spared := Unexpired(rows, cutoff);
    UnexpiredMembers(rows, cutoff);
    assert RowSet(spared) <= RowSet(rows);
    ConsistentPart(RowSet(hist), RowSet(spared), floor);
    ConsistentLater(RowSet(spared), floor, later);
    ListingCovers(spared, merged, later);
    forall r | IsNewest(RowSet(rows), r) && !Expired(r.key, later) ensures r in RowSet(merged) {
      assert IsNewest(RowSet(spared), r);
    }
    if rows != [] && cutoff == I64_MIN {
      assert rows[0] in spared;
      NewestIsLargest(spared, rows[0]);
    }
  }

  /** The worker's job apart, an invariant state stays one when the floor rises. */
  lemma FloorRises(hist: seq<Row>, commits: seq<Commit>, floor: I64, disk: Disk, v: Live, later: I64)
    requires LiveOk(hist, commits, floor, disk, v) && v.job == Idle && floor <= later
    ensures LiveOk(hist, commits, later, disk, v)
  {
    CoverLater(RowSet(hist), LiveRows(v.active, v.imms, v.ssts), floor, later);
    TxnsLater(hist, floor, v.nextSeq, v.writers, v.txns, later);
  }

  lemma TxnsLater(hist: seq<Row>, floor: I64, nextSeq: nat, writers: map<nat, (Key, Option<Bytes>)>,
                  txns: map<nat, Txn>, later: I64)
    requires TxnsOk(hist, floor, nextSeq, writers, txns) && floor <= later
    ensures TxnsOk(hist, later, nextSeq, writers, txns)
  {
    forall t | t in txns ensures TxnOk(hist, later, txns[t]) {
      ViewNarrows(txns[t].index, NewestMap(Below(hist, txns[t].snapshot)), floor, later);
    }
  }

  lemma CommitsLater(hist: seq<Row>, floor: I64, commits: seq<Commit>, later: I64)
    requires CommitsOk(hist, floor, commits) && floor <= later
    ensures CommitsOk(hist, later, commits)
  {
    forall i | 0 <= i < |commits| ensures CommitOk(hist, later, commits[i]) {
      assert CommitOk(hist, floor, commits[i]);
    }
  }

  lemma CompactStartOk(hist: seq<Row>, commits: seq<Commit>, floor: I64, disk: Disk, v: Live,
                       window: int, threshold: nat, w: int, cutoff: I64, merged: seq<Row>)
    requires HistOk(hist, floor) && LiveOk(hist, commits, floor, disk, v)
    requires v.job == Idle && Chosen(v.ssts, window, threshold, w)
    requires Lists(merged, NewestMap(Unexpired(RowsOf(Group(v.ssts, window, w)), cutoff)))
    ensures var later := if cutoff > floor then cutoff else floor;
            && HistOk(hist, later)
            && LiveOk(hist, commits, later, disk, v.(job := Merging(Ids(Group(v.ssts, window, w)), merged)))
  {
    var later := if cutoff > floor then cutoff else floor;
    var group := Group(v.ssts, window, w);
    GroupMembers(v.ssts, window, w);
    GroupTargets(v.ssts, window, w);
    RowsOfMembers(group);
    assert RowSet(RowsOf(group)) <= LiveRows(v.active, v.imms, v.ssts);
    assert group[0] in group && group[0].rows[0] in TableRows(group);
    assert group[0].id in Ids(group);
    ConsistentLater(RowSet(hist), floor, later);
    FloorRises(hist, commits, floor, disk, v, later);
    MergedCovers(hist, floor, RowsOf(group), cutoff, merged, later);
    assert RowsOf(group) != [];
  }

  lemma CompactWriteOk(hist: seq<Row>, commits: seq<Commit>, floor: I64, disk: Disk, v: Live)
    requires LiveOk(hist, commits, floor, disk, v) && v.job.Merging? && v.job.merged != []
    ensures LiveOk(hist, commits, floor, disk.(files := disk.files[v.nextSst := v.job.merged]),
                   v.(nextSst := v.nextSst + 1, job := CompactWritten(v.job.targets, v.nextSst)))
  {
    assert forall id | id in Ids(v.ssts) :: id in disk.files;
    assert TargetRows(v.ssts, v.job.targets) <= LiveRows(v.active, v.imms, v.ssts);
    NewFile(hist, disk, v.nextSst, v.job.merged);
  }

  lemma KeptSsts(floor: I64, disk: Disk, ssts: seq<Table>, nextSst: nat, job: Job, doomed: set<nat>, targets: set<nat>)
    requires SstsOk(floor, disk, ssts, nextSst, job, doomed) && targets <= Ids(ssts)
    ensures Ascending(Without(ssts, targets)) && Ids(Without(ssts, targets)) == Ids(ssts) - targets
    ensures Handles(Without(ssts, targets), Ids(ssts) - targets, disk.files)
  {
    WithoutMembers(ssts, targets);
    WithoutAscending(ssts, targets);
  }

  lemma ReplacedSsts(floor: I64, disk: Disk, ssts: seq<Table>, nextSst: nat, targets: set<nat>, id: nat, doomed: set<nat>)
    requires SstsOk(floor, disk, ssts, nextSst, CompactWritten(targets, id), doomed)
    requires targets <= Ids(ssts) && id in disk.files && id !in Ids(ssts)
    ensures var ssts' := Without(ssts, targets) + [Table(id, disk.files[id])];
            SstsOk(floor, disk, ssts', nextSst, CompactPublished(targets, {id}), doomed) && Ids(ssts') == Ids(ssts) - targets + {id}
  {
    var sst := Table(id, disk.files[id]);
    var kept := Without(ssts, targets);
    KeptSsts(floor, disk, ssts, nextSst, CompactWritten(targets, id), doomed, targets);
    forall u | u in kept ensures u.id < id { assert u.id in Ids(kept); }
    AscendingAppend(kept, sst);
    assert Ids(kept + [sst]) == Ids(kept) + {id};
    assert Ids(kept + [sst]) - {id} + targets == Ids(ssts);
  }

  lemma DroppedSsts(floor: I64, disk: Disk, ssts: seq<Table>, nextSst: nat, job: Job, targets: set<nat>, doomed: set<nat>)
    requires SstsOk(floor, disk, ssts, nextSst, job, doomed) && job.Merging? && targets <= Ids(ssts)
    ensures SstsOk(floor, disk, Without(ssts, targets), nextSst, CompactPublished(targets, {}), doomed)
  {
    KeptSsts(floor, disk, ssts, nextSst, job, doomed, targets);
    assert Ids(Without(ssts, targets)) - {} + targets == Ids(ssts);
  }

  lemma ReplacedCover(hist: seq<Row>, floor: I64, v: Live, targets: set<nat>, more: seq<Table>)
    requires Covers(RowSet(hist), LiveRows(v.active, v.imms, v.ssts), floor)
    requires Covers(TargetRows(v.ssts, targets), TableRows(more), floor)
    ensures Covers(RowSet(hist), LiveRows(v.active, v.imms, Without(v.ssts, targets) + more), floor)
  {
    var kept := Without(v.ssts, targets);
    WithoutMembers(v.ssts, targets);
    assert TableRows(kept + more) == TableRows(kept) + TableRows(more);
    CoverReplace(RowSet(hist), LiveRows(v.active, v.imms, v.ssts), TargetRows(v.ssts, targets), TableRows(more),
                 LiveRows(v.active, v.imms, kept + more), floor);
  }

  lemma CompactPublishOk(hist: seq<Row>, commits: seq<Commit>, floor: I64, disk: Disk, v: Live)
    requires LiveOk(hist, commits, floor, disk, v) && v.job.CompactWritten? && v.job.id in disk.files
    ensures LiveOk(hist, commits, floor, disk,
                   v.(ssts := Without(v.ssts, v.job.targets) + [Table(v.job.id, disk.files[v.job.id])],
                      job := CompactPublished(v.job.targets, {v.job.id})))
  {
    var sst := Table(v.job.id, disk.files[v.job.id]);
    assert TableRows([sst]) == RowSet(sst.rows);
    ReplacedSsts(floor, disk, v.ssts, v.nextSst, v.job.targets, v.job.id, v.doomedSsts);
    ReplacedCover(hist, floor, v, v.job.targets, [sst]);
  }

  /** When everything merged had expired, the group goes away and nothing takes its place. */
  lemma CompactDropOk(hist: seq<Row>, commits: seq<Commit>, floor: I64, disk: Disk, v: Live)
    requires LiveOk(hist, commits, floor, disk, v) && v.job.Merging? && v.job.merged == []
    ensures LiveOk(hist, commits, floor, disk,
                   v.(ssts := Without(v.ssts, v.job.targets), job := CompactPublished(v.job.targets, {})))
  {
    var targets := v.job.targets;
    DroppedSsts(floor, disk, v.ssts, v.nextSst, v.job, targets, v.doomedSsts);
    KeptSsts(floor, disk, v.ssts, v.nextSst, v.job, v.doomedSsts, targets);
    assert TableRows([]) == RowSet(v.job.merged);
    ReplacedCover(hist, floor, v, targets, []);
    SeqAssoc(Without(v.ssts, targets), [], []);
  }

  lemma CompactFinishOk(hist: seq<Row>, commits: seq<Commit>, floor: I64, disk: Disk, v: Live)
    requires LiveOk(hist, commits, floor, disk, v) && v.job.CompactPublished?
    ensures LiveOk(hist, commits, floor, disk.(manifest := Some(Ids(v.ssts))),
                   v.(job := Idle, doomedSsts := v.doomedSsts + v.job.targets))
  {
    var ids := Ids(v.ssts);
    if floor == I64_MIN {
      var id :| id in v.job.ids;
      forall f | f in disk.files ensures f in ids || Stale(ids, f) {
        if f !in ids && f in Tracked(ids, v.job) {
          assert id in ids && f < id;
        } else if f !in ids && Stale(Tracked(ids, v.job), f) {
          var m :| m in Tracked(ids, v.job) && f < m;
          assert m < id;
        }
      }
    }
    forall f | f in v.job.targets ensures f < v.nextSst {
      assert f in Tracked(ids, v.job);
    }
  }

  // ---------- Removals ----------

  lemma RemoveSstOk(hist: seq<Row>, commits: seq<Commit>, floor: I64, disk: Disk, v: Live, id: nat)
    requires LiveOk(hist, commits, floor, disk, v) && id in v.doomedSsts
    ensures LiveOk(hist, commits, floor, disk.(files := disk.files - {id}), v.(doomedSsts := v.doomedSsts - {id}))
  {
  }

  lemma RemoveWalOk(hist: seq<Row>, commits: seq<Commit>, floor: I64, disk: Disk, v: Live, n: nat)
    requires LiveOk(hist, commits, floor, disk, v) && n in v.doomedWals
    ensures LiveOk(hist, commits, floor, disk.(wals := disk.wals - {n}), v.(doomedWals := v.doomedWals - {n}))
  {
  }

  // ---------- Freeze ----------

  lemma FrozenWals(wals: map<nat, seq<Row>>, active: Table, imms: seq<Table>, doomed: set<nat>)
    requires WalsOk(wals, active, imms, doomed) && active.rows != []
    ensures WalsOk(wals[active.id + 1 := []], Table(active.id + 1, []), imms + [active], doomed)
    ensures Ids(imms + [active]) == Ids(imms) + {active.id}
  {
    AscendingAppend(imms, active);
    assert Ids(imms + [active]) == Ids(imms) + {active.id};
  }

  lemma FrozenRows(active: Table, imms: seq<Table>, ssts: seq<Table>, id: nat)
    ensures LiveRows(Table(id, []), imms + [active], ssts) == LiveRows(active, imms, ssts)
  {
    assert TableRows(imms + [active]) == TableRows(imms) + RowSet(active.rows);
  }

  lemma FreezeOk(hist: seq<Row>, commits: seq<Commit>, floor: I64, disk: Disk, v: Live)
    requires LiveOk(hist, commits, floor, disk, v) && v.active.rows != []
    ensures v.active.id + 1 !in disk.wals
    ensures LiveOk(hist, commits, floor, disk.(wals := disk.wals[v.active.id + 1 := []]),
                   v.(active := Table(v.active.id + 1, []), imms := v.imms + [v.active]))
  {
    FrozenWals(disk.wals, v.active, v.imms, v.doomedWals);
    FrozenRows(v.active, v.imms, v.ssts, v.active.id + 1);
  }
}
