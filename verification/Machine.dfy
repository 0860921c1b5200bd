/**
 The region as a state machine (src/memtable/memtable.rs, src/memtable/transaction.rs): writers,
 transactions, the background worker, the files it leaves behind, crashes, and the steps of reopening.
 A step is one lock-protected region of the source or one durable effect; steps interleave freely.
 */
module Machine {
  import opened Rows

  // ---------- State ----------

  /** A memtable with the number of its log, or an SST with its id. */
  datatype Table = Table(id: nat, rows: seq<Row>)

  datatype Txn = Txn(snapshot: nat, index: map<Key, Row>, writes: map<Key, Option<Bytes>>)

  /** A committed transaction: its rows took the numbers from `start` on, and the places in the history from `at` on. */
  datatype Commit = Commit(txn: Txn, start: nat, at: nat)

  /** Where the single worker thread is, between its durable effects. */
  datatype Job =
    | Idle
    | FlushWritten(wal: nat, id: nat)
    | FlushPublished(wal: nat, id: nat)
    | Merging(targets: set<nat>, merged: seq<Row>)
    | CompactWritten(targets: set<nat>, id: nat)
    | CompactPublished(targets: set<nat>, ids: set<nat>)  // no file if every row had expired

  datatype Live = Live(
    active: Table, imms: seq<Table>, ssts: seq<Table>,
    nextSeq: nat, nextSst: nat,
    writers: map<nat, (Key, Option<Bytes>)>,  // numbers taken whose rows are not inserted yet
    txns: map<nat, Txn>,
    job: Job,
    doomedSsts: set<nat>, doomedWals: set<nat>)  // files whose removal is still owed

  /** An open in progress; `latest` is what is left of the orphan log being merged. */
  datatype Recovery = Recovery(
    ssts: seq<Table>, adopted: bool, active: Table,
    orphans: set<nat>, current: Option<nat>, latest: map<Key, Row>)

  datatype Process = Down | Opening(recovery: Recovery) | Up(live: Live)

  datatype Disk = Disk(files: map<nat, seq<Row>>, manifest: Option<set<nat>>, wals: map<nat, seq<Row>>)

  /**
   `hist` and `commits` are the history: every row ever made durable, every commit. `floor` is the highest cutoff that
   a compaction has ever used: older rows may have been dropped.
   */
  datatype State = State(process: Process, disk: Disk, hist: seq<Row>, commits: seq<Commit>, floor: I64)

  const INITIAL: State := State(Down, Disk(map[], None, map[]), [], [], I64_MIN)

  // ---------- Tables ----------

  function Ids(ts: seq<Table>): set<nat> {
    set t | t in ts :: t.id
  }

  ghost function TableRows(ts: seq<Table>): set<Row> {
    set t, r | t in ts && r in t.rows :: r
  }

  /** Ascending ids, hence distinct: `sort_by_key(|s| s.id())`. */
  predicate Ascending(ts: seq<Table>) {
    forall i, j | 0 <= i < j < |ts| :: ts[i].id < ts[j].id
  }

  function Without(ts: seq<Table>, ids: set<nat>): seq<Table> {
    if ts == [] then []
    else if ts[0].id in ids then Without(ts[1..], ids)
    else [ts[0]] + Without(ts[1..], ids)
  }

  function Only(ts: seq<Table>, ids: set<nat>): seq<Table> {
    if ts == [] then []
    else if ts[0].id in ids then [ts[0]] + Only(ts[1..], ids)
    else Only(ts[1..], ids)
  }

  function RowsOf(ts: seq<Table>): seq<Row> {
    if ts == [] then [] else ts[0].rows + RowsOf(ts[1..])
  }

  function Reverse(ts: seq<Table>): seq<Table> {
    if ts == [] then [] else Reverse(ts[1..]) + [ts[0]]
  }

  /** The order in which reads and snapshots visit the version's sources. */
  function Sources(v: Live): seq<Table> {
    [v.active] + Reverse(v.imms) + Reverse(v.ssts)
  }

  /** Rows numbered below `n`. */
  function Below(rows: seq<Row>, n: nat): seq<Row> {
    if rows == [] then []
    else
      var front, last := Below(rows[..|rows| - 1], n), rows[|rows| - 1];
      if last.seqNo < n then front + [last] else front
  }

  /** One more than the largest id: what reopening leaves in `sst_id`. */
  function NextId(ts: seq<Table>): nat {
    if ts == [] then 0
    else if NextId(ts[1..]) > ts[0].id then NextId(ts[1..]) else ts[0].id + 1
  }

  // ---------- What reopening loads ----------

  /** Tracked by the manifest, or untracked but above everything the manifest tracks. */
  predicate IsLoaded(disk: Disk, id: nat) {
    && id in disk.files
    && (disk.manifest == None || id in disk.manifest.value
        || forall m | m in disk.manifest.value && m in disk.files :: m < id)
  }

  function Loaded(disk: Disk): set<nat> {
    set id | id in disk.files && IsLoaded(disk, id)
  }

  /** The logs that reopening finds: it first creates log 0 if that is missing. */
  function WalsAtOpen(disk: Disk): map<nat, seq<Row>> {
    if 0 in disk.wals then disk.wals else disk.wals[0 := []]
  }

  /** `ts` are handles, in id order, for exactly these files. */
  predicate Handles(ts: seq<Table>, ids: set<nat>, files: map<nat, seq<Row>>) {
    && Ascending(ts) && Ids(ts) == ids
    && forall t | t in ts :: t.id in files && files[t.id] == t.rows
  }

  // ---------- Compaction's choice of a window ----------

  function MinTs(rows: seq<Row>): int
    requires rows != []
  {
    if |rows| == 1 then rows[0].key.ts
    else if MinTs(rows[1..]) < rows[0].key.ts then MinTs(rows[1..]) else rows[0].key.ts
  }

  /** `ts_extent().0.div_euclid(window)`; the window size is clamped to at least 1. */
  function WindowOf(t: Table, window: int): int
    requires t.rows != []
  {
    MinTs(t.rows) / (if window < 1 then 1 else window)
  }

  /** The group of one window, in id order; tables without rows belong to none. */
  function Group(ts: seq<Table>, window: int, w: int): seq<Table> {
    if ts == [] then []
    else if ts[0].rows != [] && WindowOf(ts[0], window) == w then [ts[0]] + Group(ts[1..], window, w)
    else Group(ts[1..], window, w)
  }

  /** `w` is the first window whose group reaches the threshold. */
  ghost predicate Chosen(ts: seq<Table>, window: int, threshold: nat, w: int) {
    && |ts| >= threshold
    && Group(ts, window, w) != [] && |Group(ts, window, w)| >= threshold
    && forall v | v < w && Group(ts, window, v) != [] :: |Group(ts, window, v)| < threshold
  }

  // ---------- Steps ----------

  datatype Label =
    | Crash
    | OpenStart(last: nat, loaded: seq<Table>)
    | OrphanLoad(orphan: nat)
    | OrphanRow(key: Key)
    | OrphanDone(removed: bool)
    | OpenDone
    | Allocate(key: Key, value: Option<Bytes>)
    | Insert(seqNo: nat)
    | WriteBatch(entries: seq<(Key, Option<Bytes>)>)
    | Begin(txn: nat, sources: seq<seq<Row>>)
    | TxnWrite(txn: nat, key: Key, value: Option<Bytes>)
    | CommitWrites(txn: nat, keys: seq<Key>)
    | CommitConflict(txn: nat)
    | CommitNothing(txn: nat)
    | Drop(txn: nat)
    | Freeze
    | FlushWrite(wal: nat, rows: seq<Row>)
    | FlushPublish
    | FlushFinish
    | CompactStart(window: int, threshold: nat, w: int, cutoff: I64, merged: seq<Row>)
    | CompactWrite
    | CompactPublish
    | CompactFinish
    | RemoveSst(id: nat)
    | RemoveWal(wal: nat)

  /** The rows a batch turns into: consecutive numbers from `start`. */
  function Numbered(entries: seq<(Key, Option<Bytes>)>, start: nat): seq<Row> {
    seq(|entries|, i requires 0 <= i < |entries| => Row(entries[i].0, start + i, entries[i].1))
  }

  function Entries(keys: seq<Key>, writes: map<Key, Option<Bytes>>): seq<(Key, Option<Bytes>)>
    requires forall k | k in keys :: k in writes
  {
    seq(|keys|, i requires 0 <= i < |keys| => (keys[i], writes[keys[i]]))
  }

  /** The keys of a write buffer in key order, as a `BTreeMap` yields them. */
  ghost predicate KeysOf(keys: seq<Key>, writes: map<Key, Option<Bytes>>) {
    && (forall i, j | 0 <= i < j < |keys| :: KeyLess(keys[i], keys[j]))
    && (forall k :: k in keys <==> k in writes)
  }

  /** A snapshot holds each source as its materialised batches: one row per key, in key order. */
  ghost predicate Snapshot(sources: seq<seq<Row>>, ts: seq<Table>) {
    |sources| == |ts| && forall i | 0 <= i < |ts| :: Lists(sources[i], NewestMap(ts[i].rows))
  }

  /** `commit` finds a version of a written key at or above the snapshot. */
  predicate Conflicts(v: Live, t: Txn) {
    exists k :: k in t.writes && k in NewestMap(RowsOf(Sources(v))) && NewestMap(RowsOf(Sources(v)))[k].seqNo >= t.snapshot
  }

  ghost predicate Enabled(s: State, l: Label) {
    match s.process
    case Down =>
      l.OpenStart? && l.last in WalsAtOpen(s.disk) && (forall n | n in WalsAtOpen(s.disk) :: n <= l.last)
      && Handles(l.loaded, Loaded(s.disk), s.disk.files)
    case Opening(r) => OpeningEnabled(s, r, l)
    case Up(v) => LiveEnabled(s, v, l)
  }

  ghost predicate OpeningEnabled(s: State, r: Recovery, l: Label) {
    match l
    case Crash => true
    case OrphanLoad(n) => r.current == None && n in r.orphans && n in s.disk.wals && forall m | m in r.orphans :: n <= m
    case OrphanRow(k) => r.current.Some? && k in r.latest
    case OrphanDone(_) => r.current.Some? && r.latest == map[]
    case OpenDone => r.current == None && r.orphans == {}
    case _ => false
  }

  ghost predicate LiveEnabled(s: State, v: Live, l: Label) {
    match l
    case Crash => true
    case Allocate(_, _) => true
    case Insert(n) => n in v.writers
    // the exclusive commit gate waits for every writer that holds it shared
    case WriteBatch(_) => v.writers == map[]
    case Begin(t, sources) => v.writers == map[] && t !in v.txns && Snapshot(sources, Sources(v))
    case TxnWrite(t, _, _) => t in v.txns
    case CommitWrites(t, keys) =>
      v.writers == map[] && t in v.txns && v.txns[t].writes != map[]
      && KeysOf(keys, v.txns[t].writes) && !Conflicts(v, v.txns[t])
    case CommitConflict(t) => v.writers == map[] && t in v.txns && Conflicts(v, v.txns[t])
    case CommitNothing(t) => t in v.txns && v.txns[t].writes == map[]
    case Drop(t) => t in v.txns
    case Freeze => v.active.rows != []
    case FlushWrite(n, rows) =>
      v.job == Idle && exists m :: m in v.imms && m.id == n && Lists(rows, NewestMap(m.rows))
    case FlushPublish => v.job.FlushWritten? && v.job.id in s.disk.files
    case FlushFinish => v.job.FlushPublished?
    case CompactStart(window, threshold, w, cutoff, merged) =>
      v.job == Idle && Chosen(v.ssts, window, threshold, w)
      && Lists(merged, NewestMap(Unexpired(RowsOf(Group(v.ssts, window, w)), cutoff)))
    case CompactWrite => v.job.Merging? && v.job.merged != []
    case CompactPublish =>
      (v.job.CompactWritten? && v.job.id in s.disk.files) || (v.job.Merging? && v.job.merged == [])
    case CompactFinish => v.job.CompactPublished?
    case RemoveSst(id) => id in v.doomedSsts
    case RemoveWal(n) => n in v.doomedWals
    case _ => false
  }

  function Step(s: State, l: Label): State
    requires Enabled(s, l)
  {
    match s.process
    case Down =>
      var wals := WalsAtOpen(s.disk);
      var adopted := s.disk.manifest == None || !(Loaded(s.disk) <= s.disk.manifest.value);
      s.(process := Opening(Recovery(l.loaded, adopted, Table(l.last, wals[l.last]), wals.Keys - {l.last}, None, map[])),
         disk := s.disk.(wals := wals))
    case Opening(r) => OpeningStep(s, r, l)
    case Up(v) => LiveStep(s, v, l)
  }

  function OpeningStep(s: State, r: Recovery, l: Label): State
    requires OpeningEnabled(s, r, l)
  {
    match l
    case Crash => s.(process := Down)
    case OrphanLoad(n) =>
      s.(process := Opening(r.(orphans := r.orphans - {n}, current := Some(n), latest := NewestMap(s.disk.wals[n]))))
    case OrphanRow(k) =>
      var row := r.latest[k];
      var held := NewestMap(r.active.rows);
      var r' := r.(latest := r.latest - {k});
      if row.key in held && held[row.key].seqNo >= row.seqNo then s.(process := Opening(r'))
      else
        var rows := r.active.rows + [row];
        s.(process := Opening(r'.(active := r.active.(rows := rows))),
           disk := s.disk.(wals := s.disk.wals[r.active.id := rows]))
    case OrphanDone(removed) =>
      s.(process := Opening(r.(current := None)),
         disk := if removed then s.disk.(wals := s.disk.wals - {r.current.value}) else s.disk)
    case OpenDone =>
      var top := MaxSeq(r.active.rows + RowsOf(r.ssts));
      s.(process := Up(Live(r.active, [], r.ssts, top + 1, NextId(r.ssts), map[], map[], Idle, {}, {})),
         disk := if s.disk.manifest == None || r.adopted then s.disk.(manifest := Some(Ids(r.ssts))) else s.disk)
    case _ => s
  }

  /** One append to the log and the memtable: a single row, or a batch in one frame. */
  function Append(s: State, v: Live, rows: seq<Row>): State {
    var all := v.active.rows + rows;
    s.(process := Up(v.(active := v.active.(rows := all))),
       disk := s.disk.(wals := s.disk.wals[v.active.id := all]),
       hist := s.hist + rows)
  }

  function LiveStep(s: State, v: Live, l: Label): State
    requires LiveEnabled(s, v, l)
  {
    match l
    case Crash => s.(process := Down)
    case Allocate(key, value) =>
      s.(process := Up(v.(nextSeq := v.nextSeq + 1, writers := v.writers[v.nextSeq := (key, value)])))
    case Insert(n) =>
      Append(s, v.(writers := v.writers - {n}), [Row(v.writers[n].0, n, v.writers[n].1)])
    case WriteBatch(entries) =>
      Append(s, v.(nextSeq := v.nextSeq + |entries|), Numbered(entries, v.nextSeq))
    case Begin(t, sources) =>
      var txn := Txn(v.nextSeq, NewestMap(Below(Flatten(sources), v.nextSeq)), map[]);
      s.(process := Up(v.(txns := v.txns[t := txn])))
    case TxnWrite(t, key, value) =>
      var txn := v.txns[t];
      s.(process := Up(v.(txns := v.txns[t := txn.(writes := txn.writes[key := value])])))
    case CommitWrites(t, keys) =>
      var txn := v.txns[t];
      var s' := Append(s, v.(nextSeq := v.nextSeq + |keys|, txns := v.txns - {t}),
                       Numbered(Entries(keys, txn.writes), v.nextSeq));
      s'.(commits := s.commits + [Commit(txn, v.nextSeq, |s.hist|)])
    case CommitConflict(t) => s.(process := Up(v.(txns := v.txns - {t})))
    case CommitNothing(t) => s.(process := Up(v.(txns := v.txns - {t})))
    case Drop(t) => s.(process := Up(v.(txns := v.txns - {t})))
    case Freeze =>
      var n := v.active.id + 1;
      var rows := if n in s.disk.wals then s.disk.wals[n] else [];
      s.(process := Up(v.(active := Table(n, rows), imms := v.imms + [v.active])),
         disk := s.disk.(wals := s.disk.wals[n := rows]))
    case FlushWrite(n, rows) =>
      s.(process := Up(v.(nextSst := v.nextSst + 1, job := FlushWritten(n, v.nextSst))),
         disk := s.disk.(files := s.disk.files[v.nextSst := rows]))
    case FlushPublish =>
      s.(process := Up(v.(ssts := v.ssts + [Table(v.job.id, s.disk.files[v.job.id])],
                          imms := Without(v.imms, {v.job.wal}),
                          job := FlushPublished(v.job.wal, v.job.id))))
    case FlushFinish =>
      s.(process := Up(v.(job := Idle, doomedWals := v.doomedWals + {v.job.wal})),
         disk := s.disk.(manifest := Some(Ids(v.ssts))))
    case CompactStart(window, threshold, w, cutoff, merged) =>
      s.(process := Up(v.(job := Merging(Ids(Group(v.ssts, window, w)), merged))),
         floor := if cutoff > s.floor then cutoff else s.floor)
    case CompactWrite =>
      s.(process := Up(v.(nextSst := v.nextSst + 1, job := CompactWritten(v.job.targets, v.nextSst))),
         disk := s.disk.(files := s.disk.files[v.nextSst := v.job.merged]))
    case CompactPublish =>
      var kept := Without(v.ssts, v.job.targets);
      if v.job.Merging? then s.(process := Up(v.(ssts := kept, job := CompactPublished(v.job.targets, {}))))
      else
        s.(process := Up(v.(ssts := kept + [Table(v.job.id, s.disk.files[v.job.id])],
                            job := CompactPublished(v.job.targets, {v.job.id}))))
    case CompactFinish =>
      s.(process := Up(v.(job := Idle, doomedSsts := v.doomedSsts + v.job.targets)),
         disk := s.disk.(manifest := Some(Ids(v.ssts))))
    case RemoveSst(id) =>
      s.(process := Up(v.(doomedSsts := v.doomedSsts - {id})),
         disk := s.disk.(files := s.disk.files - {id}))
    case RemoveWal(n) =>
      s.(process := Up(v.(doomedWals := v.doomedWals - {n})),
         disk := s.disk.(wals := s.disk.wals - {n}))
    case _ => s
  }

  // ---------- Runs ----------

  ghost predicate Runs(s: State, ls: seq<Label>)
    decreases ls
  {
    ls == [] || (Enabled(s, ls[0]) && Runs(Step(s, ls[0]), ls[1..]))
  }

  function Run(s: State, ls: seq<Label>): State
    requires Runs(s, ls)
    decreases ls
  {
    if ls == [] then s else Run(Step(s, ls[0]), ls[1..])
  }

  ghost predicate Reachable(s: State) {
    exists ls :: Runs(INITIAL, ls) && Run(INITIAL, ls) == s
  }
}
