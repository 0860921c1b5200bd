/**
 Opening a region on whatever a run or a crash left on disk (src/memtable/memtable.rs:321-545). The method always
 reaches a running state, by the opening steps of the state machine.
 */
module Reopen {
  import opened Rows
  import opened Machine
  import opened Invariant
  import opened WorkerSteps
  import opened WriterSteps
  import opened OpenSteps
  import opened Safety
  import opened RegionCode

  lemma Extend(s0: State, ls: seq<Label>, s: State, l: Label)
    requires Steps(s0, ls, s) && Enabled(s, l)
    ensures Steps(s0, ls + [l], Step(s, l))
  {
    OneStep(s, l);
    MoreSteps(s0, ls, s, [l], Step(s, l));
  }

  // ---------- Files and logs in order ----------

  function SetOf(ids: seq<nat>): set<nat> {
    set n | n in ids
  }

  /** What is in order so far, and the numbers still to come. */
  ghost predicate Sorting(ids: set<nat>, ordered: seq<nat>, todo: set<nat>) {
    && todo <= ids && Rising(ordered)
    && (forall n: nat :: n in ordered <==> n in ids && n !in todo)
    && (forall n, m | n in ordered && m in todo :: n < m)
  }

  lemma SortingNext(ids: set<nat>, ordered: seq<nat>, todo: set<nat>, next: nat)
    requires Sorting(ids, ordered, todo) && next in todo && forall m | m in todo :: next <= m
    ensures Sorting(ids, ordered + [next], todo - {next})
  {
    forall i | 0 <= i < |ordered| ensures ordered[i] < next { assert ordered[i] in ordered; }
  }

  lemma LeastOf(ids: set<nat>) returns (least: nat)
    requires ids != {}
    ensures least in ids && forall n | n in ids :: least <= n
  {
    least := Least(ids, (a: nat, b: nat) => a < b);
  }

  method First(ids: set<nat>) returns (least: nat)
    requires ids != {}
    ensures least in ids && forall n | n in ids :: least <= n
  {
    ghost var some := LeastOf(ids);
    least :| least in ids && forall n | n in ids :: least <= n;
  }

  /** Directory entries sorted by number. */
  method InOrder(ids: set<nat>) returns (ordered: seq<nat>)
    ensures Rising(ordered) && forall n: nat :: n in ordered <==> n in ids
  {
    ordered := [];
    var todo := ids;
    while todo != {}
      invariant Sorting(ids, ordered, todo)
      decreases |todo|
    {
      var next := First(todo);
      SortingNext(ids, ordered, todo, next);
      ordered := ordered + [next];
      todo := todo - {next};
    }
  }

  lemma {:induction false} NextIdSnoc(ts: seq<Table>, t: Table)
    ensures NextId(ts + [t]) == if t.id >= NextId(ts) then t.id + 1 else NextId(ts)
  {
    if ts == [] {
      assert [] + [t] == [t] && [t][1..] == [];
    } else {
      assert (ts + [t])[1..] == ts[1..] + [t];
      NextIdSnoc(ts[1..], t);
    }
  }

  /** Handles for the given files on top of those already loaded, and the counter of the next file. */
  method LoadFiles(files: map<nat, seq<Row>>, ids: seq<nat>, ssts: seq<Table>, next: nat)
    returns (ssts': seq<Table>, next': nat)
    requires Rising(ids) && (forall n | n in ids :: n in files) && (forall t, n | t in ssts && n in ids :: t.id < n)
    requires Handles(ssts, Ids(ssts), files) && next == NextId(ssts)
    ensures Handles(ssts', Ids(ssts'), files) && next' == NextId(ssts')
    ensures Ids(ssts') == Ids(ssts) + SetOf(ids)
  {
    ssts', next' := ssts, next;
    assert Ids(ssts) + SetOf(ids[..0]) == Ids(ssts);
    for i := 0 to |ids|
      invariant Handles(ssts', Ids(ssts'), files) && next' == NextId(ssts')
      invariant Ids(ssts') == Ids(ssts) + SetOf(ids[..i])
    {
      var t := Table(ids[i], files[ids[i]]);
      NextIdSnoc(ssts', t);
      forall u | u in ssts' ensures u.id < t.id {
        assert u.id in Ids(ssts');
        if u.id in Ids(ssts) {
          var v :| v in ssts && v.id == u.id;
          assert ids[i] in ids;
        }
      }
      AscendingAppend(ssts', t);
      assert Ids(ssts' + [t]) == Ids(ssts') + {t.id};
      assert ids[..i + 1] == ids[..i] + [ids[i]];
      ssts' := ssts' + [t];
      if t.id >= next' { next' := t.id + 1; }
    }
    assert ids[..|ids|] == ids;
  }

  /** What the manifest tracks is loaded, and of the other files those above everything that it tracks. */
  ghost predicate ToLoad(disk: Disk, id: nat) {
    && id in disk.files
    && (disk.manifest.Some? ==> id in disk.manifest.value || forall m | m in disk.manifest.value && m in disk.files :: m < id)
  }

  lemma LoadedAre(disk: Disk, ssts: seq<Table>)
    requires Handles(ssts, Loaded(disk), disk.files)
    ensures forall t | t in ssts :: ToLoad(disk, t.id) && t.rows == disk.files[t.id]
    ensures forall id | ToLoad(disk, id) :: exists t :: t in ssts && t.id == id
  {
    forall t | t in ssts ensures ToLoad(disk, t.id) { assert t.id in Ids(ssts); }
    forall id | ToLoad(disk, id) ensures exists t :: t in ssts && t.id == id { assert id in Ids(ssts); }
  }

  lemma LoadedIs(disk: Disk, tracked: set<nat>, extra: set<nat>)
    requires forall id :: id in tracked <==> disk.manifest.Some? && id in disk.manifest.value && id in disk.files
    requires forall id :: id in extra <==> id in disk.files && id !in tracked && forall m | m in tracked :: m < id
    ensures Loaded(disk) == tracked + extra
  {
    forall id: nat ensures id in Loaded(disk) <==> id in tracked || id in extra {
      if disk.manifest.Some? && id in extra {
        assert forall m | m in disk.manifest.value && m in disk.files :: m in tracked;
      }
      if id in Loaded(disk) && id !in tracked {
        assert IsLoaded(disk, id);
        assert forall m | m in tracked :: m in disk.manifest.value && m in disk.files;
      }
    }
  }

  /** The tracked files that exist, and then the untracked ones above all of those. */
  method LoadFound(disk: Disk) returns (ssts: seq<Table>, next: nat, added: bool)
    ensures Handles(ssts, Loaded(disk), disk.files) && next == NextId(ssts)
    ensures added <==> !(Loaded(disk) <= if disk.manifest.Some? then disk.manifest.value else {})
  {
    var entries := if disk.manifest.Some? then disk.manifest.value else {};
    var tracked := set id | id in entries && id in disk.files;
    var trackedIds := InOrder(tracked);
    ssts, next := LoadFiles(disk.files, trackedIds, [], 0);
    assert Ids(ssts) == tracked;
    var extra := set id | id in disk.files.Keys - tracked && forall m | m in tracked :: m < id;
    var extraIds := InOrder(extra);
    forall t, n | t in ssts && n in extraIds ensures t.id < n { assert t.id in Ids(ssts) && n in extra; }
    ssts, next := LoadFiles(disk.files, extraIds, ssts, next);
    added := extra != {};
    assert Ids(ssts) == tracked + extra;
    LoadedIs(disk, tracked, extra);
    AddedIff(Loaded(disk), entries, tracked, extra);
  }

  /** What is loaded goes beyond the manifest exactly if files besides the tracked ones are. */
  lemma AddedIff(loaded: set<nat>, entries: set<nat>, tracked: set<nat>, extra: set<nat>)
    requires loaded == tracked + extra && tracked <= entries && extra !! entries
    ensures extra != {} <==> !(loaded <= entries)
  {
    if extra != {} {
      var id :| id in extra;
      assert id in loaded && id !in entries;
    }
  }

  /** `load_manifest` and `scan_sst_files`: exactly these files, each with its rows, and one more than their highest id. */
  method LoadAll(disk: Disk) returns (ssts: seq<Table>, next: nat, added: bool)
    ensures Handles(ssts, Loaded(disk), disk.files) && next == NextId(ssts)
    ensures added <==> !(Loaded(disk) <= if disk.manifest.Some? then disk.manifest.value else {})
    ensures forall t | t in ssts :: ToLoad(disk, t.id) && t.rows == disk.files[t.id] && t.id < next
    ensures forall id | ToLoad(disk, id) :: exists t :: t in ssts && t.id == id
    ensures if ssts == [] then next == 0 else exists t :: t in ssts && t.id + 1 == next
  {
    ssts, next, added := LoadFound(disk);
    LoadedAre(disk, ssts);
    NextIdAbove(ssts);
    NextIdIs(ssts);
  }

  // ---------- Orphan logs ----------

  /** The state of an open in progress, as the locals of the source have it. */
  ghost function Recovering(s: State, r: Recovery, active: Table, orphans: set<nat>, current: Option<nat>,
                            latest: map<Key, Row>, wals: map<nat, seq<Row>>): State
  {
    s.(process := Opening(Recovery(r.ssts, r.adopted, active, orphans, current, latest)), disk := s.disk.(wals := wals))
  }

  ghost predicate InternalOnly(ls: seq<Label>) {
    forall l | l in ls :: Internal(l)
  }

  /** Writes what is left of one log into the memtable, in any order; rows that are not newer are skipped. */
  method MergeLatest(active: Table, wals: map<nat, seq<Row>>, latest: map<Key, Row>,
                     ghost s0: State, ghost ls: seq<Label>, ghost s: State, ghost r: Recovery,
                     ghost orphans: set<nat>, ghost n: nat)
    returns (active': Table, wals': map<nat, seq<Row>>, ghost ls': seq<Label>)
    requires Steps(s0, ls, Recovering(s, r, active, orphans, Some(n), latest, wals)) && InternalOnly(ls)
    requires forall k | k in latest :: latest[k].key == k
    ensures Steps(s0, ls', Recovering(s, r, active', orphans, Some(n), map[], wals')) && InternalOnly(ls')
    ensures active'.id == active.id
    ensures forall m | m != active.id :: m in wals' <==> m in wals
    ensures forall m | m != active.id && m in wals :: wals'[m] == wals[m]
  {
    active', wals', ls' := active, wals, ls;
    var rest := latest;
    while rest != map[]
      invariant Steps(s0, ls', Recovering(s, r, active', orphans, Some(n), rest, wals')) && InternalOnly(ls')
      invariant active'.id == active.id && forall k | k in rest :: rest[k].key == k
      invariant forall m | m != active.id :: m in wals' <==> m in wals
      invariant forall m | m != active.id && m in wals :: wals'[m] == wals[m]
      decreases |rest|
    {
      ghost var some := Member(rest.Keys);
      var key :| key in rest;
      var row := rest[key];
      var held := NewestMap(active'.rows);
      Extend(s0, ls', Recovering(s, r, active', orphans, Some(n), rest, wals'), OrphanRow(key));
      ls' := ls' + [OrphanRow(key)];
      FewerKeys(rest, key);
      rest := rest - {key};
      if !(row.key in held && held[row.key].seqNo >= row.seqNo) {
        active' := Table(active'.id, active'.rows + [row]);
        wals' := wals'[active'.id := active'.rows];
      }
    }
  }

  lemma FewerKeys(m: map<Key, Row>, k: Key)
    requires k in m
    ensures |m - {k}| < |m|
  {
    assert (m - {k}).Keys == m.Keys - {k};
  }

  /** Every orphan in turn, oldest first; its file goes away if that succeeds. */
  method MergeOrphans(orphans: seq<nat>, active: Table, wals: map<nat, seq<Row>>, removable: nat -> bool,
                      ghost s0: State, ghost ls: seq<Label>, ghost s: State, ghost r: Recovery)
    returns (active': Table, wals': map<nat, seq<Row>>, ghost ls': seq<Label>)
    requires Rising(orphans) && active.id !in orphans && forall n | n in orphans :: n in wals
    requires Steps(s0, ls, Recovering(s, r, active, SetOf(orphans), None, map[], wals)) && InternalOnly(ls)
    ensures Steps(s0, ls', Recovering(s, r, active', {}, None, map[], wals')) && InternalOnly(ls')
  {
    active', wals', ls' := active, wals, ls;
    for i := 0 to |orphans|
      invariant Steps(s0, ls', Recovering(s, r, active', SetOf(orphans[i..]), None, map[], wals')) && InternalOnly(ls')
      invariant active'.id == active.id && forall n | n in orphans[i..] :: n in wals'
    {
      var n := orphans[i];
      ghost var rest := SetOf(orphans[i + 1..]);
      OrphansLeft(orphans, i);
      var latest := LatestOf(wals'[n]);
      Extend(s0, ls', Recovering(s, r, active', SetOf(orphans[i..]), None, map[], wals'), OrphanLoad(n));
      ls' := ls' + [OrphanLoad(n)];
      forall k | k in latest ensures latest[k].key == k { NewestMapMeaning(wals'[n], k); }
      active', wals', ls' := MergeLatest(active', wals', latest, s0, ls', s, r, rest, n);
      Extend(s0, ls', Recovering(s, r, active', rest, Some(n), map[], wals'), OrphanDone(removable(n)));
      ls' := ls' + [OrphanDone(removable(n))];
      if removable(n) { wals' := wals' - {n}; }
    }
    assert (SetOf(orphans[|orphans|..])) == {};
  }

  lemma OrphansLeft(orphans: seq<nat>, i: nat)
    requires Rising(orphans) && i < |orphans|
    ensures SetOf(orphans[i..]) - {orphans[i]} == SetOf(orphans[i + 1..])
    ensures orphans[i] in orphans[i..] && orphans[i] in orphans
    ensures forall m | m in orphans[i..] :: orphans[i] <= m
    ensures forall m | m in orphans[i + 1..] :: m in orphans[i..] && m != orphans[i]
  {
    assert orphans[i..] == [orphans[i]] + orphans[i + 1..];
  }

  // ---------- The whole open ----------

  lemma MaxSeqNext(rows: seq<Row>, ssts: seq<Table>, i: nat)
    requires i < |ssts|
    ensures var w, n := MaxSeq(rows + RowsOf(ssts[..i])), MaxSeq(ssts[i].rows);
            MaxSeq(rows + RowsOf(ssts[..i + 1])) == if n > w then n else w
  {
    RowsOfSnoc(ssts[..i], ssts[i]);
    assert ssts[..i + 1] == ssts[..i] + [ssts[i]];
    assert rows + (RowsOf(ssts[..i]) + ssts[i].rows) == rows + RowsOf(ssts[..i]) + ssts[i].rows;
    MaxSeqConcat(rows + RowsOf(ssts[..i]), ssts[i].rows);
  }

  /** The highest number found, over the active memtable and every file. */
  method Watermark(active: Table, ssts: seq<Table>) returns (w: nat)
    ensures w == MaxSeq(active.rows + RowsOf(ssts))
  {
    w := MaxSeq(active.rows);
    assert active.rows + RowsOf(ssts[..0]) == active.rows;
    for i := 0 to |ssts|
      invariant w == MaxSeq(active.rows + RowsOf(ssts[..i]))
    {
      MaxSeqNext(active.rows, ssts, i);
      if MaxSeq(ssts[i].rows) > w { w := MaxSeq(ssts[i].rows); }
    }
    assert ssts[..|ssts|] == ssts;
  }

  /** The first step: what is on disk, loaded, and the newest log as the active memtable. */
  ghost function Started(s: State, loaded: seq<Table>, last: nat): Recovery
    requires last in WalsAtOpen(s.disk)
  {
    Recovery(loaded, s.disk.manifest == None || !(Loaded(s.disk) <= s.disk.manifest.value),
             Table(last, WalsAtOpen(s.disk)[last]), WalsAtOpen(s.disk).Keys - {last}, None, map[])
  }

  lemma StartRun(s: State, loaded: seq<Table>, last: nat)
    requires s.process == Down && last in WalsAtOpen(s.disk) && forall n | n in WalsAtOpen(s.disk) :: n <= last
    requires Handles(loaded, Loaded(s.disk), s.disk.files)
    ensures var r := Started(s, loaded, last);
            Steps(s, [OpenStart(last, loaded)],
                  Recovering(s, r, r.active, r.orphans, None, map[], WalsAtOpen(s.disk)))
  {
    OneStep(s, OpenStart(last, loaded));
  }

  /** A region that has just come up. */
  ghost function Fresh(disk: Disk, active: Table, ssts: seq<Table>, seqNo: nat, next: nat, hist: seq<Row>,
                       commits: seq<Machine.Commit>, floor: I64): State
  {
    State(Up(Live(active, [], ssts, seqNo, next, map[], map[], Idle, {}, {})), disk, hist, commits, floor)
  }

  function FinalDisk(disk: Disk, added: bool, ids: set<nat>, wals: map<nat, seq<Row>>): Disk {
    Disk(disk.files, if disk.manifest == None || added then Some(ids) else disk.manifest, wals)
  }

  lemma FinishRun(s0: State, ls: seq<Label>, s: State, r: Recovery, active: Table, wals: map<nat, seq<Row>>, added: bool,
                  ssts: seq<Table>, seqNo: nat, next: nat)
    requires Steps(s0, ls, Recovering(s, r, active, {}, None, map[], wals)) && InternalOnly(ls)
    requires s.disk.manifest.Some? ==> (added <==> r.adopted)
    requires ssts == r.ssts && seqNo == MaxSeq(active.rows + RowsOf(ssts)) + 1 && next == NextId(ssts)
    ensures Steps(s0, ls + [OpenDone],
                  Fresh(FinalDisk(s.disk, added, Ids(ssts), wals), active, ssts, seqNo, next, s.hist, s.commits, s.floor))
    ensures InternalOnly(ls + [OpenDone])
  {
    Extend(s0, ls, Recovering(s, r, active, {}, None, map[], wals), OpenDone);
  }

  /** Files loaded, logs listed, the newest log replayed into the active memtable. */
  method StartUp(disk: Disk, ghost s: State)
    returns (active: Table, orphans: seq<nat>, wals: map<nat, seq<Row>>, ssts: seq<Table>, next: nat, added: bool,
             ghost r: Recovery)
    requires s.process == Down && s.disk == disk
    ensures r.ssts == ssts && next == NextId(ssts) && (disk.manifest.Some? ==> (added <==> r.adopted))
    ensures Rising(orphans) && active.id !in orphans && forall n | n in orphans :: n in wals
    ensures Steps(s, [OpenStart(active.id, ssts)], Recovering(s, r, active, SetOf(orphans), None, map[], wals))
  {
    wals := if 0 in disk.wals then disk.wals else disk.wals[0 := []];
    ssts, next, added := LoadAll(disk);
    var ordered := InOrder(wals.Keys);
    assert 0 in ordered;
    var last := ordered[|ordered| - 1];
    orphans := ordered[..|ordered| - 1];
    LastIsMax(ordered, wals.Keys);
    active := Table(last, wals[last]);
    StartRun(s, ssts, last);
    r := Started(s, ssts, last);
  }

  /** Everything `with_schema` does to the disk and to its local variables. */
  method Recover(disk: Disk, removable: nat -> bool, ghost hist: seq<Row>, ghost commits: seq<Machine.Commit>, ghost floor: I64)
    returns (disk': Disk, active: Table, ssts: seq<Table>, seqNo: nat, next: nat, ghost ls: seq<Label>)
    ensures Steps(State(Down, disk, hist, commits, floor), ls, Fresh(disk', active, ssts, seqNo, next, hist, commits, floor))
    ensures InternalOnly(ls) && seqNo == MaxSeq(active.rows + RowsOf(ssts)) + 1 && next == NextId(ssts)
  {
    ghost var s := State(Down, disk, hist, commits, floor);
    var orphans, wals, added;
    ghost var r;
    active, orphans, wals, ssts, next, added, r := StartUp(disk, s);
    active, wals, ls := MergeOrphans(orphans, active, wals, removable, s, [OpenStart(active.id, ssts)], s, r);
    var watermark := Watermark(active, ssts);
    seqNo := watermark + 1;
    FinishRun(s, ls, s, r, active, wals, added, ssts, seqNo, next);
    ls := ls + [OpenDone];
    disk' := FinalDisk(disk, added, Ids(ssts), wals);
  }

  /** The counters go on just above what was found: numbers from one on, ids from zero on. */
  ghost predicate Counts(active: Table, ssts: seq<Table>, nextSeq: nat, nextSst: nat) {
    && (forall t, r | t in [active] + ssts && r in t.rows :: r.seqNo < nextSeq)
    && (nextSeq == 1 || exists t, r :: t in [active] + ssts && r in t.rows && r.seqNo + 1 == nextSeq)
    && (forall t | t in ssts :: t.id < nextSst) && (nextSst == 0 || exists t :: t in ssts && t.id + 1 == nextSst)
  }

  lemma CountersFound(active: Table, ssts: seq<Table>)
    ensures Counts(active, ssts, MaxSeq(active.rows + RowsOf(ssts)) + 1, NextId(ssts))
  {
    var rows := active.rows + RowsOf(ssts);
    MaxSeqIsMax(rows);
    RowsOfMembers(ssts);
    NextIdAbove(ssts);
    NextIdIs(ssts);
    forall t, r | t in [active] + ssts && r in t.rows ensures r in rows {
      if t in ssts { assert r in TableRows(ssts) && r in RowSet(RowsOf(ssts)); }
    }
    if rows != [] {
      var top :| top in rows && top.seqNo == MaxSeq(rows);
      TopIn(active, ssts, top);
    }
  }

  lemma TopIn(active: Table, ssts: seq<Table>, r: Row)
    requires r in active.rows + RowsOf(ssts)
    ensures exists t :: t in [active] + ssts && r in t.rows
  {
    RowsOfMembers(ssts);
    if r in active.rows {
      assert active in [active] + ssts;
    } else {
      assert r in RowSet(RowsOf(ssts));
      var t :| t in ssts && r in t.rows;
      assert t in [active] + ssts;
    }
  }

  /**
   Opening always succeeds, whatever a crash left behind, and the region then shows exactly the newest version of every
   row that was ever made durable, from the floor on below which compaction may have dropped rows.
   */
  method Open(disk: Disk, removable: nat -> bool, ghost hist: seq<Row>, ghost commits: seq<Machine.Commit>, ghost floor: I64)
    returns (region: Region, ghost ls: seq<Label>)
    requires Inv(State(Down, disk, hist, commits, floor))
    ensures fresh(region) && Steps(State(Down, disk, hist, commits, floor), ls, region.Abs(map[])) && InternalOnly(ls)
    ensures Inv(region.Abs(map[])) && region.hist == hist && region.floor == floor
    ensures View(Visible(region.Abs(map[]).process.live), floor) == View(NewestMap(hist), floor)
    ensures floor == I64_MIN ==> Visible(region.Abs(map[]).process.live) == NewestMap(hist)
    ensures Counts(region.version.active, region.version.ssts, region.nextSeq, region.nextSst)
  {
    var disk', active, ssts, seqNo, next;
    disk', active, ssts, seqNo, next, ls := Recover(disk, removable, hist, commits, floor);
    CountersFound(active, ssts);
    region := new Region(active, ssts, seqNo, next, disk', hist, commits, floor);
    StepsKeepInv(State(Down, disk, hist, commits, floor), ls, region.Abs(map[]));
    SourcesShowHistory(hist, commits, floor, disk', region.Abs(map[]).process.live);
  }

  lemma LastIsMax(ordered: seq<nat>, ids: set<nat>)
    requires Rising(ordered) && ordered != [] && forall n: nat :: n in ordered <==> n in ids
    ensures var last := ordered[|ordered| - 1]; var front := ordered[..|ordered| - 1];
            && last in ids && (forall n | n in ids :: n <= last) && Rising(front)
            && SetOf(front) == ids - {last} && last !in front
  {
    assert ordered == ordered[..|ordered| - 1] + [ordered[|ordered| - 1]];
    forall n | n in ids ensures n <= ordered[|ordered| - 1] { assert n in ordered; }
    assert ordered[|ordered| - 1] in ordered;
  }
}
