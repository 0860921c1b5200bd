/** Reopening, step by step: loading files, merging orphan logs, and numbering on from what was found. */
module OpenSteps {
  import opened Rows
  import opened Machine
  import opened Invariant
  import opened WorkerSteps

  lemma OpenStartOk(hist: seq<Row>, floor: I64, disk: Disk, last: nat, loaded: seq<Table>)
    requires DownOk(hist, floor, disk)
    requires last in WalsAtOpen(disk) && forall n | n in WalsAtOpen(disk) :: n <= last
    requires Handles(loaded, Loaded(disk), disk.files)
    ensures OpeningOk(hist, floor, disk.(wals := WalsAtOpen(disk)),
                      Recovery(loaded, disk.manifest == None || !(Loaded(disk) <= disk.manifest.value),
                               Table(last, WalsAtOpen(disk)[last]), WalsAtOpen(disk).Keys - {last}, None, map[]))
  {
    var wals := WalsAtOpen(disk);
    var disk' := disk.(wals := wals);
    var orphans := wals.Keys - {last};
    assert Loaded(disk') == Loaded(disk) by {
      forall id ensures IsLoaded(disk', id) <==> IsLoaded(disk, id) {}
    }
    var read := RowSet(wals[last]) + TableRows(loaded) + OrphanRows(wals, orphans);
    forall r | r in FileRows(disk) ensures r in TableRows(loaded) {
      var id :| id in disk.files && IsLoaded(disk, id) && r in disk.files[id];
      assert id in Ids(loaded);
    }
    forall r | r in WalRows(disk.wals) ensures r in read {
      var n :| n in disk.wals && r in disk.wals[n];
      assert n in orphans || n == last;
    }
    CoversMore(RowSet(hist), FileRows(disk) + WalRows(disk.wals), read, floor);
    var none: map<Key, Row> := map[];
    assert read + none.Values == read;
  }

  lemma OrphanRowsSame(wals: map<nat, seq<Row>>, wals': map<nat, seq<Row>>, orphans: set<nat>)
    requires forall n | n in orphans :: n in wals && n in wals' && wals[n] == wals'[n]
    ensures OrphanRows(wals, orphans) == OrphanRows(wals', orphans)
  {
    forall r ensures r in OrphanRows(wals, orphans) <==> r in OrphanRows(wals', orphans) {
      if r in OrphanRows(wals, orphans) {
        var n :| n in orphans && n in wals && r in wals[n];
        assert r in wals'[n];
      }
    }
  }

  lemma MapCovers(rows: seq<Row>, floor: I64)
    requires Consistent(RowSet(rows), floor)
    ensures Covers(RowSet(rows), NewestMap(rows).Values, floor)
  {
    forall r | r in NewestMap(rows).Values ensures r in RowSet(rows) {
      var k :| k in NewestMap(rows) && NewestMap(rows)[k] == r;
      NewestMapMeaning(rows, k);
    }
    forall r | IsNewest(RowSet(rows), r) && !Expired(r.key, floor) ensures r in NewestMap(rows).Values {
      NewestIsMapEntry(rows, r, floor);
    }
  }

  lemma OrphanLoadOk(hist: seq<Row>, floor: I64, disk: Disk, r: Recovery, n: nat)
    requires HistOk(hist, floor) && OpeningOk(hist, floor, disk, r)
    requires r.current == None && n in r.orphans && n in disk.wals
    ensures OpeningOk(hist, floor, disk, r.(orphans := r.orphans - {n}, current := Some(n), latest := NewestMap(disk.wals[n])))
  {
    var log := disk.wals[n];
    var latest := NewestMap(log);
    ConsistentPart(RowSet(hist), RowSet(log), floor);
    MapCovers(log, floor);
    forall k | k in latest ensures latest[k].key == k && latest[k] in log { NewestMapMeaning(log, k); }
    var base := RowSet(r.active.rows) + TableRows(r.ssts);
    var c := base + OrphanRows(disk.wals, r.orphans) + r.latest.Values;
    var c' := base + OrphanRows(disk.wals, r.orphans - {n}) + latest.Values;
    CoverReplace(RowSet(hist), c, RowSet(log), latest.Values, c', floor);
  }

  lemma ValuesWithout(latest: map<Key, Row>, k: Key)
    requires k in latest
    ensures latest.Values == (latest - {k}).Values + {latest[k]}
  {
    forall r | r in latest.Values ensures r in (latest - {k}).Values + {latest[k]} {
      var j :| j in latest && latest[j] == r;
      if j != k { assert j in latest - {k} && (latest - {k})[j] == r; }
    }
  }

  /** A row that the memtable already holds, or holds something newer than, may be skipped. */
  lemma OrphanSkippedOk(hist: seq<Row>, floor: I64, disk: Disk, r: Recovery, k: Key)
    requires HistOk(hist, floor) && OpeningOk(hist, floor, disk, r) && r.current.Some? && k in r.latest
    requires k in NewestMap(r.active.rows) && NewestMap(r.active.rows)[k].seqNo >= r.latest[k].seqNo
    ensures OpeningOk(hist, floor, disk, r.(latest := r.latest - {k}))
  {
    var row, held := r.latest[k], NewestMap(r.active.rows)[k];
    NewestMapMeaning(r.active.rows, k);
    ValuesWithout(r.latest, k);
    var base := RowSet(r.active.rows) + TableRows(r.ssts) + OrphanRows(disk.wals, r.orphans);
    assert held in RowSet(r.active.rows) && held in RowSet(hist) && row in RowSet(hist);
    CoverReplace(RowSet(hist), base + r.latest.Values, {row, held}, {held}, base + (r.latest - {k}).Values, floor);
  }

  /** What reopening has in hand, in memory and in what is left of the logs. */
  ghost function InHand(wals: map<nat, seq<Row>>, r: Recovery): set<Row> {
    RowSet(r.active.rows) + TableRows(r.ssts) + OrphanRows(wals, r.orphans) + r.latest.Values
  }

  lemma KeptInHand(wals: map<nat, seq<Row>>, r: Recovery, k: Key)
    requires k in r.latest && r.active.id !in r.orphans && r.orphans <= wals.Keys
    ensures var rows := r.active.rows + [r.latest[k]];
            InHand(wals[r.active.id := rows], r.(active := r.active.(rows := rows), latest := r.latest - {k}))
            == InHand(wals, r)
  {
    var rows := r.active.rows + [r.latest[k]];
    ValuesWithout(r.latest, k);
    assert RowSet(rows) == RowSet(r.active.rows) + {r.latest[k]};
    OrphanRowsSame(wals, wals[r.active.id := rows], r.orphans);
  }

  lemma SameLoaded(disk: Disk, wals: map<nat, seq<Row>>)
    ensures Loaded(disk.(wals := wals)) == Loaded(disk)
  {
    forall id ensures IsLoaded(disk.(wals := wals), id) <==> IsLoaded(disk, id) {}
  }

  lemma OrphanKeptOk(hist: seq<Row>, floor: I64, disk: Disk, r: Recovery, k: Key)
    requires OpeningOk(hist, floor, disk, r) && r.current.Some? && k in r.latest
    ensures var rows := r.active.rows + [r.latest[k]];
            OpeningOk(hist, floor, disk.(wals := disk.wals[r.active.id := rows]),
                      r.(active := r.active.(rows := rows), latest := r.latest - {k}))
  {
    var rows := r.active.rows + [r.latest[k]];
    KeptInHand(disk.wals, r, k);
    SameLoaded(disk, disk.wals[r.active.id := rows]);
    assert InHand(disk.wals[r.active.id := rows], r.(active := r.active.(rows := rows), latest := r.latest - {k}))
        == RowSet(rows) + TableRows(r.ssts) + OrphanRows(disk.wals[r.active.id := rows], r.orphans) + (r.latest - {k}).Values;
  }

  /** A row of an orphan log is appended to the memtable and its log exactly if the memtable has none of its key as new. */
  lemma OrphanRowStep(s: State, r: Recovery, k: Key)
    requires Inv(s) && s.process == Opening(r) && OpeningEnabled(s, r, OrphanRow(k))
    ensures var row, s' := r.latest[k], OpeningStep(s, r, OrphanRow(k));
            var held := exists h :: h in r.active.rows && h.key == k && h.seqNo >= row.seqNo;
            var rows := if held then r.active.rows else r.active.rows + [row];
            && row.key == k
            && s'.process == Opening(r.(latest := r.latest - {k}, active := Table(r.active.id, rows)))
            && s'.disk == s.disk.(wals := s.disk.wals[r.active.id := rows]) && s'.hist == s.hist
  {
    NewestMapMeaning(r.active.rows, k);
    forall h | h in r.active.rows && h.key == k
      ensures k in NewestMap(r.active.rows) && h.seqNo <= NewestMap(r.active.rows)[k].seqNo
    {
      NewestIsLargest(r.active.rows, h);
    }
    assert s.disk.wals[r.active.id := r.active.rows] == s.disk.wals;
  }

  lemma OrphanDoneOk(hist: seq<Row>, floor: I64, disk: Disk, r: Recovery, removed: bool)
    requires OpeningOk(hist, floor, disk, r) && r.current.Some? && r.latest == map[]
    ensures OpeningOk(hist, floor, if removed then disk.(wals := disk.wals - {r.current.value}) else disk, r.(current := None))
  {
    var disk' := if removed then disk.(wals := disk.wals - {r.current.value}) else disk;
    OrphanRowsSame(disk.wals, disk'.wals, r.orphans);
    assert Loaded(disk') == Loaded(disk) by {
      forall id ensures IsLoaded(disk', id) <==> IsLoaded(disk, id) {}
    }
  }

  // ---------- The last step ----------

  lemma {:induction false} NextIdAbove(ts: seq<Table>)
    ensures forall t | t in ts :: t.id < NextId(ts)
  {
    if ts != [] {
      NextIdAbove(ts[1..]);
      assert ts == [ts[0]] + ts[1..];
    }
  }

  /** And just above: one more than the largest id, or zero if there is none. */
  lemma {:induction false} NextIdIs(ts: seq<Table>)
    ensures if ts == [] then NextId(ts) == 0 else exists t :: t in ts && t.id + 1 == NextId(ts)
  {
    if ts != [] {
      NextIdIs(ts[1..]);
      assert ts[0] in ts;
      if NextId(ts[1..]) > ts[0].id && |ts| > 1 {
        var last :| last in ts[1..] && last.id + 1 == NextId(ts[1..]);
        assert last in ts;
      }
    }
  }

  /** The watermark taken from what was loaded is above the number of every row that counts. */
  lemma WatermarkAbove(hist: seq<Row>, floor: I64, rows: seq<Row>)
    requires HistOk(hist, floor) && Covers(RowSet(hist), RowSet(rows), floor)
    ensures SeqsOk(hist, floor, MaxSeq(rows) + 1, map[])
  {
    MaxSeqIsMax(rows);
    forall r | r in hist && !Expired(r.key, floor) ensures r.seqNo <= MaxSeq(rows) {
      var n := NewestExists(RowSet(hist), r);
      assert n in RowSet(rows);
    }
  }

  /** After a reopen the manifest tracks exactly the handles, and every other file is stale. */
  lemma LoadedSsts(hist: seq<Row>, floor: I64, disk: Disk, r: Recovery)
    requires OpeningOk(hist, floor, disk, r)
    ensures var disk' := if disk.manifest == None || r.adopted then disk.(manifest := Some(Ids(r.ssts))) else disk;
            SstsOk(floor, disk', r.ssts, NextId(r.ssts), Idle, {})
    ensures forall id | id in disk.files && id !in Ids(r.ssts) :: Stale(Ids(r.ssts), id)
  {
    var ids := Ids(r.ssts);
    NextIdAbove(r.ssts);
    forall id | id in disk.files && id !in ids ensures Stale(ids, id) {
      assert !IsLoaded(disk, id);
      var m :| m in disk.manifest.value && m in disk.files && m >= id;
      assert m in Loaded(disk);
    }
    forall id | id in ids ensures id < NextId(r.ssts) {
      var t :| t in r.ssts && t.id == id;
    }
    if disk.manifest.Some? && !r.adopted {
      assert disk.manifest.value == Loaded(disk) == ids;
    }
  }

  lemma OpenDoneOk(hist: seq<Row>, commits: seq<Commit>, floor: I64, disk: Disk, r: Recovery)
    requires HistOk(hist, floor) && OpeningOk(hist, floor, disk, r)
    requires r.current == None && r.orphans == {}
    ensures LiveOk(hist, commits, floor,
                   if disk.manifest == None || r.adopted then disk.(manifest := Some(Ids(r.ssts))) else disk,
                   Live(r.active, [], r.ssts, MaxSeq(r.active.rows + RowsOf(r.ssts)) + 1, NextId(r.ssts),
                        map[], map[], Idle, {}, {}))
  {
    var rows := r.active.rows + RowsOf(r.ssts);
    RowsOfMembers(r.ssts);
    assert RowSet(rows) == RowSet(r.active.rows) + TableRows(r.ssts);
    assert OrphanRows(disk.wals, r.orphans) == {};
    assert LiveRows(r.active, [], r.ssts) == RowSet(rows);
    assert r.latest.Values == {};
    WatermarkAbove(hist, floor, rows);
    LoadedSsts(hist, floor, disk, r);
    forall id | id in Ids(r.ssts) ensures id in disk.files {}
  }
}
