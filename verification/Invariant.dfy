/** What every reachable state of the region keeps. */
module Invariant {
  import opened Rows
  import opened Machine

  // ---------- History ----------

  ghost predicate HistOk(hist: seq<Row>, floor: I64) {
    Consistent(RowSet(hist), floor) && forall r | r in hist :: r.seqNo >= 1
  }

  function End(c: Commit): nat {
    c.start + |c.txn.writes|
  }

  function Stop(c: Commit): nat {
    c.at + |c.txn.writes|
  }

  /** The commit's rows stand next to each other in the history: one for every key written, numbered in turn. */
  ghost predicate CommitRows(hist: seq<Row>, c: Commit) {
    && Stop(c) <= |hist|
    && (forall p | c.at <= p < Stop(c) ::
          hist[p].seqNo == c.start + (p - c.at) && hist[p].key in c.txn.writes && hist[p].value == c.txn.writes[hist[p].key])
    && (forall k | k in c.txn.writes :: exists p :: Wrote(hist, c, k, p))
  }

  ghost predicate Wrote(hist: seq<Row>, c: Commit, k: Key, p: int) {
    c.at <= p < Stop(c) <= |hist| && hist[p].key == k
  }

  /** The transaction's index shows the newest version of `k`, and no version of `k` is at or above its snapshot. */
  ghost predicate Seen(hist: seq<Row>, t: Txn, k: Key) {
    && (k in t.index <==> k in NewestMap(hist)) && (k in t.index ==> t.index[k] == NewestMap(hist)[k])
    && forall r | r in hist && r.key == k :: r.seqNo < t.snapshot
  }

  /** When a transaction committed it had seen every key it wrote as it was then, as far as that has not expired. */
  ghost predicate CommitOk(hist: seq<Row>, floor: I64, c: Commit) {
    && c.txn.writes != map[] && 1 <= c.txn.snapshot <= c.start && CommitRows(hist, c)
    && forall k | k in c.txn.writes && !Expired(k, floor) :: Seen(hist[..c.at], c.txn, k)
  }

  /** Of two commits that write a common key, the later one began after the earlier one was complete. */
  ghost predicate Ordered(a: Commit, b: Commit) {
    && End(a) <= b.start
    && forall k | k in a.txn.writes && k in b.txn.writes :: End(a) <= b.txn.snapshot
  }

  /** Commits stand in the history one behind the other. */
  ghost predicate InOrder(commits: seq<Commit>) {
    forall i, j | 0 <= i < j < |commits| :: Stop(commits[i]) <= commits[j].at
  }

  /** Numbers tell the order of commits only as long as nothing has been dropped; after that they may be used again. */
  ghost predicate CommitsOk(hist: seq<Row>, floor: I64, commits: seq<Commit>) {
    && (forall i | 0 <= i < |commits| :: CommitOk(hist, floor, commits[i]))
    && InOrder(commits)
    && (floor == I64_MIN ==> forall i, j | 0 <= i < j < |commits| :: Ordered(commits[i], commits[j]))
  }

  // ---------- Disk ----------

  ghost predicate DiskOk(hist: seq<Row>, disk: Disk) {
    && (forall id, r | id in disk.files && r in disk.files[id] :: r in hist)
    && (forall id | id in disk.files :: disk.files[id] != [] && Sorted(disk.files[id]))
    && (forall n, r | n in disk.wals && r in disk.wals[n] :: r in hist)
    && (disk.manifest.Some? ==> disk.manifest.value <= disk.files.Keys)
  }

  ghost function FileRows(disk: Disk): set<Row> {
    set id, r | id in disk.files && IsLoaded(disk, id) && r in disk.files[id] :: r
  }

  ghost function WalRows(wals: map<nat, seq<Row>>): set<Row> {
    set n, r | n in wals && r in wals[n] :: r
  }

  /** Nothing durable is lost: what reopening would read covers the history. */
  ghost predicate DownOk(hist: seq<Row>, floor: I64, disk: Disk) {
    DiskOk(hist, disk) && Covers(RowSet(hist), FileRows(disk) + WalRows(disk.wals), floor)
  }

  // ---------- A running region ----------

  ghost function LiveRows(active: Table, imms: seq<Table>, ssts: seq<Table>): set<Row> {
    RowSet(active.rows) + TableRows(imms) + TableRows(ssts)
  }

  /** Numbers are fresh, except that those of rows long expired and gone may come again after a reopen. */
  ghost predicate SeqsOk(hist: seq<Row>, floor: I64, nextSeq: nat, writers: map<nat, (Key, Option<Bytes>)>) {
    && 1 <= nextSeq
    && (forall r | r in hist && !Expired(r.key, floor) :: r.seqNo < nextSeq)
    && (forall w | w in writers :: 1 <= w < nextSeq)
    && (forall w, r | w in writers && r in hist && !Expired(r.key, floor) :: r.seqNo != w)
  }

  /** A transaction's index is the newest-version map below its snapshot, now and later, as far as it has not expired. */
  ghost predicate TxnOk(hist: seq<Row>, floor: I64, t: Txn) {
    1 <= t.snapshot && View(t.index, floor) == View(NewestMap(Below(hist, t.snapshot)), floor)
  }

  ghost predicate TxnsOk(hist: seq<Row>, floor: I64, nextSeq: nat, writers: map<nat, (Key, Option<Bytes>)>,
                         txns: map<nat, Txn>)
  {
    && (forall t | t in txns :: TxnOk(hist, floor, txns[t]) && txns[t].snapshot <= nextSeq)
    && (forall t, w | t in txns && w in writers :: txns[t].snapshot <= w)
  }

  /** No snapshot was taken in the middle of a commit. */
  ghost predicate Clear(commits: seq<Commit>, txns: map<nat, Txn>) {
    forall t, c | t in txns && c in commits :: txns[t].snapshot <= c.start || End(c) <= txns[t].snapshot
  }

  ghost predicate WalsOk(wals: map<nat, seq<Row>>, active: Table, imms: seq<Table>, doomed: set<nat>) {
    && active.id in wals && wals[active.id] == active.rows
    && Ascending(imms)
    && (forall m | m in imms :: m.rows != [] && m.id < active.id && m.id in wals && wals[m.id] == m.rows)
    && (forall n | n in wals :: n <= active.id)
    && (forall n | n in doomed :: n < active.id && n !in Ids(imms))
  }

  /** The id of a file that is written but not yet in the manifest. */
  function Pending(job: Job): set<nat> {
    match job
    case FlushWritten(_, id) => {id}
    case FlushPublished(_, id) => {id}
    case CompactWritten(_, id) => {id}
    case CompactPublished(_, ids) => ids
    case _ => {}
  }

  /** What the manifest on disk tracks while the job is where it is. */
  function Tracked(ids: set<nat>, job: Job): set<nat> {
    match job
    case FlushPublished(_, id) => ids - {id}
    case CompactPublished(targets, added) => ids - added + targets
    case _ => ids
  }

  ghost predicate SstsOk(floor: I64, disk: Disk, ssts: seq<Table>, nextSst: nat, job: Job, doomed: set<nat>) {
    var ids := Ids(ssts);
    var tracked := Tracked(ids, job);
    && Handles(ssts, ids, disk.files)
    && (forall id | id in disk.files :: id < nextSst)
    && disk.manifest == Some(tracked) && tracked <= disk.files.Keys
    && (forall id | id in Pending(job) :: id in disk.files && forall m | m in tracked :: m < id)
    // a file outside the manifest is either the worker's newest or stale, unless a merge has left no file behind
    && (floor == I64_MIN ==> forall id | id in disk.files :: id in tracked || id in Pending(job) || Stale(tracked, id))
    && (forall id | id in doomed :: id < nextSst && id !in tracked && id !in Pending(job))
  }

  ghost predicate Stale(tracked: set<nat>, id: nat) {
    exists m :: m in tracked && id < m
  }

  ghost function TargetRows(ssts: seq<Table>, targets: set<nat>): set<Row> {
    set t, r | t in ssts && t.id in targets && r in t.rows :: r
  }

  /** A merge leaves no rows only if all of them had expired. */
  ghost predicate JobOk(floor: I64, files: map<nat, seq<Row>>, active: nat, imms: seq<Table>, ssts: seq<Table>, job: Job) {
    match job
    case Idle => true
    case FlushWritten(wal, id) =>
      && id in files && id !in Ids(ssts)
      && exists m :: m in imms && m.id == wal && Covers(RowSet(m.rows), RowSet(files[id]), floor)
    case FlushPublished(wal, id) => id in Ids(ssts) && wal < active && wal !in Ids(imms)
    case Merging(targets, merged) =>
      && targets != {} && targets <= Ids(ssts) && Sorted(merged) && (floor == I64_MIN ==> merged != [])
      && Covers(TargetRows(ssts, targets), RowSet(merged), floor)
    case CompactWritten(targets, id) =>
      && targets != {} && targets <= Ids(ssts) && id in files && id !in Ids(ssts)
      && Covers(TargetRows(ssts, targets), RowSet(files[id]), floor)
    case CompactPublished(targets, ids) =>
      ids <= Ids(ssts) && targets !! Ids(ssts) && (floor == I64_MIN ==> ids != {})
  }

  ghost predicate LiveOk(hist: seq<Row>, commits: seq<Commit>, floor: I64, disk: Disk, v: Live) {
    && DiskOk(hist, disk)
    && SeqsOk(hist, floor, v.nextSeq, v.writers)
    && TxnsOk(hist, floor, v.nextSeq, v.writers, v.txns) && (floor == I64_MIN ==> Clear(commits, v.txns))
    && WalsOk(disk.wals, v.active, v.imms, v.doomedWals)
    && SstsOk(floor, disk, v.ssts, v.nextSst, v.job, v.doomedSsts)
    && JobOk(floor, disk.files, v.active.id, v.imms, v.ssts, v.job)
    && Covers(RowSet(hist), LiveRows(v.active, v.imms, v.ssts), floor)
  }

  // ---------- An open in progress ----------

  ghost function OrphanRows(wals: map<nat, seq<Row>>, orphans: set<nat>): set<Row> {
    set n, r | n in orphans && n in wals && r in wals[n] :: r
  }

  ghost predicate OpeningOk(hist: seq<Row>, floor: I64, disk: Disk, r: Recovery) {
    && DiskOk(hist, disk)
    && Handles(r.ssts, Loaded(disk), disk.files)
    && (r.adopted <==> disk.manifest == None || !(Loaded(disk) <= disk.manifest.value))
    && r.active.id in disk.wals && disk.wals[r.active.id] == r.active.rows
    && (forall n | n in disk.wals :: n <= r.active.id)
    && r.orphans <= disk.wals.Keys && r.active.id !in r.orphans
    && (r.current == None ==> r.latest == map[])
    && (r.current.Some? ==>
          && r.current.value in disk.wals && r.current.value != r.active.id && r.current.value !in r.orphans
          && forall k | k in r.latest :: r.latest[k].key == k && r.latest[k] in disk.wals[r.current.value])
    && Covers(RowSet(hist),
              RowSet(r.active.rows) + TableRows(r.ssts) + OrphanRows(disk.wals, r.orphans) + r.latest.Values, floor)
  }

  ghost predicate Inv(s: State) {
    && HistOk(s.hist, s.floor)
    && CommitsOk(s.hist, s.floor, s.commits)
    && match s.process
       case Down => DownOk(s.hist, s.floor, s.disk)
       case Opening(r) => OpeningOk(s.hist, s.floor, s.disk, r)
       case Up(v) => LiveOk(s.hist, s.commits, s.floor, s.disk, v)
  }

  // ---------- Crashes ----------

  lemma CoversMore(h: set<Row>, c: set<Row>, c': set<Row>, floor: I64)
    requires Covers(h, c, floor) && c <= c' <= h
    ensures Covers(h, c', floor)
  {
  }

  /** Everything a running region relies on is on disk, wherever the worker is. */
  lemma CrashWhileUp(hist: seq<Row>, commits: seq<Commit>, floor: I64, disk: Disk, v: Live)
    requires LiveOk(hist, commits, floor, disk, v)
    ensures DownOk(hist, floor, disk)
  {
    forall t | t in v.ssts ensures IsLoaded(disk, t.id) {
      assert t.id in Ids(v.ssts);
    }
    CoversMore(RowSet(hist), LiveRows(v.active, v.imms, v.ssts), FileRows(disk) + WalRows(disk.wals), floor);
  }

  lemma CrashWhileOpening(hist: seq<Row>, floor: I64, disk: Disk, r: Recovery)
    requires OpeningOk(hist, floor, disk, r)
    ensures DownOk(hist, floor, disk)
  {
    forall t | t in r.ssts ensures IsLoaded(disk, t.id) {
      assert t.id in Ids(r.ssts);
    }
    CoversMore(RowSet(hist), RowSet(r.active.rows) + TableRows(r.ssts) + OrphanRows(disk.wals, r.orphans) + r.latest.Values,
               FileRows(disk) + WalRows(disk.wals), floor);
  }
}
