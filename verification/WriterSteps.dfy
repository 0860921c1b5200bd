/** The steps of writers and transactions keep the invariant. */
module WriterSteps {
  import opened Rows
  import opened Machine
  import opened Invariant
  import opened WorkerSteps

  // ---------- What a reader of the version sees ----------

  lemma {:induction false} ReverseMembers(ts: seq<Table>)
    ensures |Reverse(ts)| == |ts|
    ensures forall t :: t in Reverse(ts) <==> t in ts
  {
    if ts != [] {
      ReverseMembers(ts[1..]);
      assert ts == [ts[0]] + ts[1..];
    }
  }

  lemma SourcesRows(v: Live)
    ensures TableRows(Sources(v)) == LiveRows(v.active, v.imms, v.ssts)
  {
    ReverseMembers(v.imms);
    ReverseMembers(v.ssts);
    assert forall t :: t in Sources(v) <==> t == v.active || t in v.imms || t in v.ssts;
  }

  /** Of each key that has not expired, the newest version the sources show is the history's. */
  lemma SourcesShowHistory(hist: seq<Row>, commits: seq<Commit>, floor: I64, disk: Disk, v: Live)
    requires HistOk(hist, floor) && LiveOk(hist, commits, floor, disk, v)
    ensures View(NewestMap(RowsOf(Sources(v))), floor) == View(NewestMap(hist), floor)
    ensures floor == I64_MIN ==> NewestMap(RowsOf(Sources(v))) == NewestMap(hist)
  {
    SourcesRows(v);
    RowsOfMembers(Sources(v));
    CoverSameView(hist, RowsOf(Sources(v)), floor);
    WholeView(NewestMap(hist));
    WholeView(NewestMap(RowsOf(Sources(v))));
  }

  lemma SourceRowIsHistory(hist: seq<Row>, commits: seq<Commit>, floor: I64, disk: Disk, v: Live, r: Row)
    requires LiveOk(hist, commits, floor, disk, v) && r in RowsOf(Sources(v))
    ensures r in hist
  {
    SourcesRows(v);
    RowsOfMembers(Sources(v));
    assert r in RowSet(hist);
  }

  // ---------- Rows below a number ----------

  lemma BelowSnoc(rows: seq<Row>, r: Row, n: nat)
    ensures Below(rows + [r], n) == if r.seqNo < n then Below(rows, n) + [r] else Below(rows, n)
  {
    assert (rows + [r])[..|rows|] == rows;
  }

  lemma {:induction false} BelowAppend(hist: seq<Row>, rows: seq<Row>, n: nat)
    requires forall r | r in rows :: r.seqNo >= n
    ensures Below(hist + rows, n) == Below(hist, n)
  {
    if rows == [] {
      assert hist + rows == hist;
    } else {
      var front, last := rows[..|rows| - 1], rows[|rows| - 1];
      BelowAppend(hist, front, n);
      assert hist + rows == hist + front + [last];
      BelowSnoc(hist + front, last, n);
    }
  }

  // ---------- Appending rows ----------

  /** Rows with fresh numbers, none of them twice. */
  ghost predicate Fresh(hist: seq<Row>, floor: I64, rows: seq<Row>) {
    && (forall r | r in rows :: r.seqNo >= 1)
    && (forall r, h | r in rows && h in hist && !Expired(h.key, floor) :: r.seqNo != h.seqNo)
    && Consistent(RowSet(rows), floor)
  }

  lemma AppendHistory(hist: seq<Row>, floor: I64, rows: seq<Row>)
    requires HistOk(hist, floor) && Fresh(hist, floor, rows)
    ensures HistOk(hist + rows, floor)
    ensures RowSet(hist + rows) == RowSet(hist) + RowSet(rows)
  {
  }

  lemma CommitStable(hist: seq<Row>, floor: I64, rows: seq<Row>, c: Commit)
    requires CommitOk(hist, floor, c)
    ensures CommitOk(hist + rows, floor, c)
  {
    assert (hist + rows)[..c.at] == hist[..c.at];
    forall k | k in c.txn.writes ensures exists p :: Wrote(hist + rows, c, k, p) {
      var p :| Wrote(hist, c, k, p);
      assert Wrote(hist + rows, c, k, p);
    }
  }

  lemma CommitsStable(hist: seq<Row>, floor: I64, rows: seq<Row>, commits: seq<Commit>)
    requires CommitsOk(hist, floor, commits)
    ensures CommitsOk(hist + rows, floor, commits)
  {
    forall i | 0 <= i < |commits| ensures CommitOk(hist + rows, floor, commits[i]) {
      CommitStable(hist, floor, rows, commits[i]);
    }
  }

  lemma TxnsStable(hist: seq<Row>, floor: I64, nextSeq: nat, writers: map<nat, (Key, Option<Bytes>)>,
                   txns: map<nat, Txn>, rows: seq<Row>)
    requires TxnsOk(hist, floor, nextSeq, writers, txns)
    requires forall r, t | r in rows && t in txns :: txns[t].snapshot <= r.seqNo
    ensures TxnsOk(hist + rows, floor, nextSeq, writers, txns)
  {
    forall t | t in txns ensures TxnOk(hist + rows, floor, txns[t]) { BelowAppend(hist, rows, txns[t].snapshot); }
  }

  /** The log and the memtable grow together; files, handles and the worker's job are untouched. */
  lemma AppendTables(hist: seq<Row>, commits: seq<Commit>, floor: I64, disk: Disk, v: Live, rows: seq<Row>,
                     v': Live, disk': Disk)
    requires LiveOk(hist, commits, floor, disk, v)
    requires v'.active == Table(v.active.id, v.active.rows + rows)
    requires disk' == disk.(wals := disk.wals[v.active.id := v.active.rows + rows])
    requires v'.imms == v.imms && v'.ssts == v.ssts && v'.nextSst == v.nextSst && v'.job == v.job
    requires v'.doomedSsts == v.doomedSsts && v'.doomedWals == v.doomedWals
    requires RowSet(hist + rows) == RowSet(hist) + RowSet(rows)
    ensures DiskOk(hist + rows, disk')
    ensures WalsOk(disk'.wals, v'.active, v'.imms, v'.doomedWals)
    ensures SstsOk(floor, disk', v'.ssts, v'.nextSst, v'.job, v'.doomedSsts)
    ensures JobOk(floor, disk'.files, v'.active.id, v'.imms, v'.ssts, v'.job)
    ensures Covers(RowSet(hist + rows), LiveRows(v'.active, v'.imms, v'.ssts), floor)
  {
    CoverExtend(RowSet(hist), LiveRows(v.active, v.imms, v.ssts), RowSet(rows), floor);
    assert LiveRows(v'.active, v'.imms, v'.ssts) == LiveRows(v.active, v.imms, v.ssts) + RowSet(rows);
  }

  // ---------- Writers ----------

  lemma AllocateOk(hist: seq<Row>, commits: seq<Commit>, floor: I64, disk: Disk, v: Live, key: Key, value: Option<Bytes>)
    requires LiveOk(hist, commits, floor, disk, v)
    ensures LiveOk(hist, commits, floor, disk,
                   v.(nextSeq := v.nextSeq + 1, writers := v.writers[v.nextSeq := (key, value)]))
  {
  }

  /** What an append has to keep besides the tables. */
  ghost predicate NumbersOk(hist: seq<Row>, commits: seq<Commit>, floor: I64, v: Live) {
    && HistOk(hist, floor) && SeqsOk(hist, floor, v.nextSeq, v.writers) && CommitsOk(hist, floor, commits)
    && TxnsOk(hist, floor, v.nextSeq, v.writers, v.txns) && (floor == I64_MIN ==> Clear(commits, v.txns))
  }

  /** An append whose numbers are right keeps the invariant. */
  lemma AppendOk(hist: seq<Row>, commits: seq<Commit>, floor: I64, disk: Disk, v: Live, rows: seq<Row>,
                 v': Live, commits': seq<Commit>)
    requires LiveOk(hist, commits, floor, disk, v) && NumbersOk(hist + rows, commits', floor, v')
    requires v'.active == v.active && v'.imms == v.imms && v'.ssts == v.ssts && v'.nextSst == v.nextSst && v'.job == v.job
    requires v'.doomedSsts == v.doomedSsts && v'.doomedWals == v.doomedWals
    requires RowSet(hist + rows) == RowSet(hist) + RowSet(rows)
    ensures Inv(Append(State(Up(v), disk, hist, commits, floor), v', rows).(commits := commits'))
  {
    var s' := Append(State(Up(v), disk, hist, commits, floor), v', rows);
    AppendTables(hist, commits, floor, disk, v, rows, s'.process.live, s'.disk);
  }

  lemma InsertNumbers(hist: seq<Row>, commits: seq<Commit>, floor: I64, v: Live, r: Row)
    requires NumbersOk(hist, commits, floor, v) && r.seqNo in v.writers
    ensures NumbersOk(hist + [r], commits, floor, v.(writers := v.writers - {r.seqNo}))
    ensures RowSet(hist + [r]) == RowSet(hist) + RowSet([r])
  {
    AppendHistory(hist, floor, [r]);
    CommitsStable(hist, floor, [r], commits);
    TxnsStable(hist, floor, v.nextSeq, v.writers, v.txns, [r]);
  }

  lemma InsertOk(hist: seq<Row>, commits: seq<Commit>, floor: I64, disk: Disk, v: Live, n: nat)
    requires HistOk(hist, floor) && CommitsOk(hist, floor, commits)
    requires LiveOk(hist, commits, floor, disk, v) && n in v.writers
    ensures Inv(Append(State(Up(v), disk, hist, commits, floor), v.(writers := v.writers - {n}),
                       [Row(v.writers[n].0, n, v.writers[n].1)]))
  {
    var r := Row(v.writers[n].0, n, v.writers[n].1);
    InsertNumbers(hist, commits, floor, v, r);
    AppendOk(hist, commits, floor, disk, v, [r], v.(writers := v.writers - {n}), commits);
  }

  lemma NumberedRows(entries: seq<(Key, Option<Bytes>)>, start: nat, floor: I64)
    ensures forall r | r in Numbered(entries, start) :: start <= r.seqNo < start + |entries|
    ensures Consistent(RowSet(Numbered(entries, start)), floor)
  {
  }

  lemma FreshBatch(hist: seq<Row>, floor: I64, nextSeq: nat, entries: seq<(Key, Option<Bytes>)>)
    requires HistOk(hist, floor) && SeqsOk(hist, floor, nextSeq, map[])
    ensures var rows := Numbered(entries, nextSeq);
            && HistOk(hist + rows, floor) && SeqsOk(hist + rows, floor, nextSeq + |entries|, map[])
            && RowSet(hist + rows) == RowSet(hist) + RowSet(rows)
  {
    NumberedRows(entries, nextSeq, floor);
    AppendHistory(hist, floor, Numbered(entries, nextSeq));
  }

  lemma BatchNumbers(hist: seq<Row>, commits: seq<Commit>, floor: I64, v: Live, entries: seq<(Key, Option<Bytes>)>)
    requires NumbersOk(hist, commits, floor, v) && v.writers == map[]
    ensures var rows := Numbered(entries, v.nextSeq);
            && NumbersOk(hist + rows, commits, floor, v.(nextSeq := v.nextSeq + |entries|))
            && RowSet(hist + rows) == RowSet(hist) + RowSet(rows)
  {
    var rows := Numbered(entries, v.nextSeq);
    FreshBatch(hist, floor, v.nextSeq, entries);
    NumberedRows(entries, v.nextSeq, floor);
    CommitsStable(hist, floor, rows, commits);
    TxnsStable(hist, floor, v.nextSeq, v.writers, v.txns, rows);
  }

  lemma WriteBatchOk(hist: seq<Row>, commits: seq<Commit>, floor: I64, disk: Disk, v: Live,
                     entries: seq<(Key, Option<Bytes>)>)
    requires HistOk(hist, floor) && CommitsOk(hist, floor, commits)
    requires LiveOk(hist, commits, floor, disk, v) && v.writers == map[]
    ensures Inv(Append(State(Up(v), disk, hist, commits, floor), v.(nextSeq := v.nextSeq + |entries|),
                       Numbered(entries, v.nextSeq)))
  {
    BatchNumbers(hist, commits, floor, v, entries);
    AppendOk(hist, commits, floor, disk, v, Numbered(entries, v.nextSeq), v.(nextSeq := v.nextSeq + |entries|), commits);
  }

  // ---------- Transactions ----------

  /** One row per key of each source is enough to cover what the sources cover. */
  lemma SnapshotCovers(hist: seq<Row>, floor: I64, ts: seq<Table>, sources: seq<seq<Row>>)
    requires HistOk(hist, floor) && Covers(RowSet(hist), TableRows(ts), floor) && Snapshot(sources, ts)
    ensures Covers(RowSet(hist), RowSet(Flatten(sources)), floor)
  {
    forall i | 0 <= i < |ts| ensures Covers(RowSet(ts[i].rows), RowSet(sources[i]), floor) {
      assert RowSet(ts[i].rows) <= TableRows(ts);
      ListedPart(hist, floor, ts[i].rows, sources[i]);
    }
    forall r | r in Flatten(sources) ensures r in RowSet(hist) {
      FlattenMember(sources, r);
      var i :| 0 <= i < |sources| && r in sources[i];
      assert r in RowSet(sources[i]);
      assert ts[i] in ts;
    }
    forall r | IsNewest(RowSet(hist), r) && !Expired(r.key, floor) ensures r in Flatten(sources) {
      var t :| t in ts && r in t.rows;
      var i :| 0 <= i < |ts| && ts[i] == t;
      assert RowSet(t.rows) <= TableRows(ts);
      assert IsNewest(RowSet(t.rows), r);
      assert r in RowSet(sources[i]);
      FlattenMember(sources, r);
    }
  }

  lemma {:induction false} BelowKey(rows: seq<Row>, n: nat, k: Key)
    requires forall r | r in rows && r.key == k :: r.seqNo < n
    ensures Newest(Below(rows, n), k) == Newest(rows, k)
  {
    if rows != [] {
      var front, last := rows[..|rows| - 1], rows[|rows| - 1];
      BelowKey(front, n, k);
      if last.seqNo < n { NewestMapSnoc(Below(front, n), last); }
    }
  }

  lemma ViewBelow(rows: seq<Row>, floor: I64, n: nat)
    requires forall r | r in rows && !Expired(r.key, floor) :: r.seqNo < n
    ensures View(NewestMap(Below(rows, n)), floor) == View(NewestMap(rows), floor)
  {
    forall k: Key | !Expired(k, floor) ensures Newest(Below(rows, n), k) == Newest(rows, k) { BelowKey(rows, n, k); }
    SameNewestView(Below(rows, n), rows, floor);
  }

  lemma SameNewestView(a: seq<Row>, b: seq<Row>, floor: I64)
    requires forall k: Key | !Expired(k, floor) :: Newest(a, k) == Newest(b, k)
    ensures View(NewestMap(a), floor) == View(NewestMap(b), floor)
  {
    forall k: Key | !Expired(k, floor)
      ensures k in NewestMap(a) <==> k in NewestMap(b)
      ensures k in NewestMap(a) ==> NewestMap(a)[k] == NewestMap(b)[k]
    {
      assert Newest(a, k) == Newest(b, k);
    }
  }

  /** With the gate held a snapshot holds the newest version of every key: no allocated number is missing. */
  lemma SnapshotComplete(hist: seq<Row>, commits: seq<Commit>, floor: I64, disk: Disk, v: Live, sources: seq<seq<Row>>)
    requires HistOk(hist, floor) && LiveOk(hist, commits, floor, disk, v) && Snapshot(sources, Sources(v))
    ensures View(NewestMap(Below(Flatten(sources), v.nextSeq)), floor) == View(NewestMap(hist), floor)
    ensures View(NewestMap(Below(hist, v.nextSeq)), floor) == View(NewestMap(hist), floor)
    ensures floor == I64_MIN ==> NewestMap(Below(Flatten(sources), v.nextSeq)) == NewestMap(Below(hist, v.nextSeq))
    ensures floor == I64_MIN ==> NewestMap(Below(hist, v.nextSeq)) == NewestMap(hist)
  {
    SourcesRows(v);
    SnapshotCovers(hist, floor, Sources(v), sources);
    forall r | r in Flatten(sources) ensures r in hist { assert r in RowSet(Flatten(sources)); }
    ViewBelow(hist, floor, v.nextSeq);
    ViewBelow(Flatten(sources), floor, v.nextSeq);
    CoverSameView(hist, Flatten(sources), floor);
    WholeView(NewestMap(hist));
    WholeView(NewestMap(Below(hist, v.nextSeq)));
    WholeView(NewestMap(Below(Flatten(sources), v.nextSeq)));
  }

  /** Transactions come and go without touching anything else. */
  lemma OnlyTxns(hist: seq<Row>, commits: seq<Commit>, floor: I64, disk: Disk, v: Live, txns: map<nat, Txn>)
    requires LiveOk(hist, commits, floor, disk, v)
    requires TxnsOk(hist, floor, v.nextSeq, v.writers, txns) && (floor == I64_MIN ==> Clear(commits, txns))
    ensures LiveOk(hist, commits, floor, disk, v.(txns := txns))
  {
  }

  /** While nothing has been dropped, the next number is above all that commits have used. */
  lemma CommitsBelow(hist: seq<Row>, commits: seq<Commit>, nextSeq: nat)
    requires CommitsOk(hist, I64_MIN, commits) && forall r | r in hist :: r.seqNo < nextSeq
    ensures forall c | c in commits :: End(c) <= nextSeq
  {
    forall c | c in commits ensures End(c) <= nextSeq {
      var i :| 0 <= i < |commits| && commits[i] == c;
      assert CommitOk(hist, I64_MIN, c);
      assert hist[Stop(c) - 1] in hist;
    }
  }

  lemma BeginOk(hist: seq<Row>, commits: seq<Commit>, floor: I64, disk: Disk, v: Live, t: nat, sources: seq<seq<Row>>)
    requires HistOk(hist, floor) && CommitsOk(hist, floor, commits) && LiveOk(hist, commits, floor, disk, v)
    requires v.writers == map[] && Snapshot(sources, Sources(v))
    ensures LiveOk(hist, commits, floor, disk,
                   v.(txns := v.txns[t := Txn(v.nextSeq, NewestMap(Below(Flatten(sources), v.nextSeq)), map[])]))
  {
    var txn := Txn(v.nextSeq, NewestMap(Below(Flatten(sources), v.nextSeq)), map[]);
    SnapshotComplete(hist, commits, floor, disk, v, sources);
    if floor == I64_MIN { CommitsBelow(hist, commits, v.nextSeq); }
    OnlyTxns(hist, commits, floor, disk, v, v.txns[t := txn]);
  }

  lemma TxnWriteOk(hist: seq<Row>, commits: seq<Commit>, floor: I64, disk: Disk, v: Live, t: nat,
                   key: Key, value: Option<Bytes>)
    requires LiveOk(hist, commits, floor, disk, v) && t in v.txns
    ensures LiveOk(hist, commits, floor, disk,
                   v.(txns := v.txns[t := v.txns[t].(writes := v.txns[t].writes[key := value])]))
  {
  }

  lemma EndTxnOk(hist: seq<Row>, commits: seq<Commit>, floor: I64, disk: Disk, v: Live, t: nat)
    requires LiveOk(hist, commits, floor, disk, v)
    ensures LiveOk(hist, commits, floor, disk, v.(txns := v.txns - {t}))
  {
  }

  lemma {:induction false} IncreasingCount(keys: seq<Key>) returns (all: set<Key>)
    requires forall i, j | 0 <= i < j < |keys| :: KeyLess(keys[i], keys[j])
    ensures |all| == |keys| && forall k :: k in all <==> k in keys
  {
    if keys == [] {
      all := {};
    } else {
      var front, last := keys[..|keys| - 1], keys[|keys| - 1];
      var rest := IncreasingCount(front);
      if last in front {
        var i :| 0 <= i < |front| && keys[i] == last;
        KeyIrreflexive(last);
      }
      all := rest + {last};
      assert keys == front + [last];
    }
  }

  lemma KeyCount(keys: seq<Key>, writes: map<Key, Option<Bytes>>)
    requires KeysOf(keys, writes)
    ensures |keys| == |writes|
  {
    var all := IncreasingCount(keys);
    assert all == writes.Keys;
  }

  /** A key that has not expired conflicts exactly if a version of it is at or above the snapshot. */
  lemma ConflictsAt(hist: seq<Row>, commits: seq<Commit>, floor: I64, disk: Disk, v: Live, n: nat, k: Key)
    requires HistOk(hist, floor) && LiveOk(hist, commits, floor, disk, v) && !Expired(k, floor)
    ensures (k in NewestMap(RowsOf(Sources(v))) && NewestMap(RowsOf(Sources(v)))[k].seqNo >= n)
            <==> exists r :: r in hist && r.key == k && r.seqNo >= n
  {
    SourcesShowHistory(hist, commits, floor, disk, v);
    SameViewNewest(RowsOf(Sources(v)), hist, floor, k);
    assert Newest(RowsOf(Sources(v)), k) == Newest(hist, k);
    forall r | r in hist && r.key == k ensures k in NewestMap(hist) && NewestMap(hist)[k].seqNo >= r.seqNo {
      NewestIsLargest(hist, r);
    }
    NewestMapMeaning(hist, k);
  }

  /** Without a conflict no version of a written key that has not expired is at or above the snapshot. */
  lemma NoConflictMeans(hist: seq<Row>, commits: seq<Commit>, floor: I64, disk: Disk, v: Live, t: Txn)
    requires HistOk(hist, floor) && LiveOk(hist, commits, floor, disk, v)
    requires forall k | k in t.writes :: !Expired(k, floor)
    ensures Conflicts(v, t) <==> exists r :: r in hist && r.key in t.writes && r.seqNo >= t.snapshot
  {
    forall k | k in t.writes
      ensures (k in NewestMap(RowsOf(Sources(v))) && NewestMap(RowsOf(Sources(v)))[k].seqNo >= t.snapshot)
              <==> exists r :: r in hist && r.key == k && r.seqNo >= t.snapshot
    {
      ConflictsAt(hist, commits, floor, disk, v, t.snapshot, k);
    }
  }

  /** The rows a commit adds are its rows. */
  lemma NumberedFillCommit(hist: seq<Row>, c: Commit, keys: seq<Key>)
    requires KeysOf(keys, c.txn.writes) && c.at == |hist|
    ensures CommitRows(hist + Numbered(Entries(keys, c.txn.writes), c.start), c)
  {
    var rows := Numbered(Entries(keys, c.txn.writes), c.start);
    var all := hist + rows;
    KeyCount(keys, c.txn.writes);
    forall p | c.at <= p < Stop(c)
      ensures all[p].seqNo == c.start + (p - c.at) && all[p].key in c.txn.writes && all[p].value == c.txn.writes[all[p].key]
    {
      assert all[p] == rows[p - c.at] && keys[p - c.at] in keys;
    }
    forall k | k in c.txn.writes ensures exists p :: Wrote(all, c, k, p) {
      var i :| 0 <= i < |keys| && keys[i] == k;
      assert Wrote(all, c, k, c.at + i);
    }
  }

  /** A transaction without a conflict has seen each key it writes as it is now. */
  lemma KeySeen(hist: seq<Row>, commits: seq<Commit>, floor: I64, disk: Disk, v: Live, t: Txn, k: Key)
    requires HistOk(hist, floor) && LiveOk(hist, commits, floor, disk, v) && TxnOk(hist, floor, t)
    requires !Conflicts(v, t) && k in t.writes && !Expired(k, floor)
    ensures Seen(hist, t, k)
  {
    ConflictsAt(hist, commits, floor, disk, v, t.snapshot, k);
    BelowKey(hist, t.snapshot, k);
    IndexEntry(hist, floor, t, k);
    assert Newest(Below(hist, t.snapshot), k) == Newest(hist, k);
  }

  lemma IndexEntry(hist: seq<Row>, floor: I64, t: Txn, k: Key)
    requires TxnOk(hist, floor, t) && !Expired(k, floor)
    ensures k in t.index <==> k in NewestMap(Below(hist, t.snapshot))
    ensures k in t.index ==> t.index[k] == NewestMap(Below(hist, t.snapshot))[k]
  {
    var below := NewestMap(Below(hist, t.snapshot));
    assert k in t.index <==> k in View(t.index, floor);
    assert k in below <==> k in View(below, floor);
  }

  lemma NewCommitOk(hist: seq<Row>, commits: seq<Commit>, floor: I64, disk: Disk, v: Live, t: Txn, keys: seq<Key>)
    requires HistOk(hist, floor) && LiveOk(hist, commits, floor, disk, v) && TxnOk(hist, floor, t)
    requires t.writes != map[] && t.snapshot <= v.nextSeq && KeysOf(keys, t.writes) && !Conflicts(v, t)
    ensures CommitOk(hist + Numbered(Entries(keys, t.writes), v.nextSeq), floor, Commit(t, v.nextSeq, |hist|))
  {
    var c := Commit(t, v.nextSeq, |hist|);
    NumberedFillCommit(hist, c, keys);
    assert (hist + Numbered(Entries(keys, t.writes), v.nextSeq))[..c.at] == hist;
    forall k | k in t.writes && !Expired(k, floor) ensures Seen(hist, t, k) {
      KeySeen(hist, commits, floor, disk, v, t, k);
    }
  }

  /** While nothing has been dropped: a common key shows that the other commit was complete at the snapshot. */
  lemma NewCommitOrdered(hist: seq<Row>, a: Commit, c: Commit)
    requires CommitOk(hist, I64_MIN, a) && End(a) <= c.start && (c.txn.snapshot <= a.start || End(a) <= c.txn.snapshot)
    requires forall k | k in c.txn.writes :: Seen(hist, c.txn, k)
    ensures Ordered(a, c)
  {
    forall k | k in a.txn.writes && k in c.txn.writes ensures End(a) <= c.txn.snapshot {
      var p :| Wrote(hist, a, k, p);
      assert hist[p] in hist && Seen(hist, c.txn, k);
    }
  }

  lemma OrderedSnoc(commits: seq<Commit>, c: Commit, i: nat, j: nat)
    requires i < j <= |commits|
    requires forall i, j | 0 <= i < j < |commits| :: Ordered(commits[i], commits[j])
    requires forall i | 0 <= i < |commits| :: Ordered(commits[i], c)
    ensures Ordered((commits + [c])[i], (commits + [c])[j])
  {
    if j < |commits| { assert Ordered(commits[i], commits[j]); }
  }

  lemma CommitsSnoc(hist: seq<Row>, floor: I64, commits: seq<Commit>, c: Commit)
    requires CommitsOk(hist, floor, commits) && CommitOk(hist, floor, c)
    requires forall i | 0 <= i < |commits| :: Stop(commits[i]) <= c.at
    requires floor == I64_MIN ==> forall i | 0 <= i < |commits| :: Ordered(commits[i], c)
    ensures CommitsOk(hist, floor, commits + [c])
  {
    forall i | 0 <= i <= |commits| ensures CommitOk(hist, floor, (commits + [c])[i]) {}
    if floor == I64_MIN {
      forall j, i | 0 <= i < j <= |commits| ensures Ordered((commits + [c])[i], (commits + [c])[j]) {
        OrderedSnoc(commits, c, i, j);
      }
    }
  }

  lemma NewCommitsOrdered(hist: seq<Row>, commits: seq<Commit>, disk: Disk, v: Live, c: Commit)
    requires HistOk(hist, I64_MIN) && CommitsOk(hist, I64_MIN, commits) && LiveOk(hist, commits, I64_MIN, disk, v)
    requires c.start == v.nextSeq && exists t :: t in v.txns && v.txns[t] == c.txn
    requires !Conflicts(v, c.txn)
    ensures forall i | 0 <= i < |commits| :: Ordered(commits[i], c)
  {
    var t :| t in v.txns && v.txns[t] == c.txn;
    CommitsBelow(hist, commits, v.nextSeq);
    forall k | k in c.txn.writes ensures Seen(hist, c.txn, k) { KeySeen(hist, commits, I64_MIN, disk, v, c.txn, k); }
    forall i | 0 <= i < |commits| ensures Ordered(commits[i], c) {
      assert commits[i] in commits;
      NewCommitOrdered(hist, commits[i], c);
    }
  }

  lemma CommitKept(hist: seq<Row>, commits: seq<Commit>, floor: I64, disk: Disk, v: Live, t: nat, keys: seq<Key>)
    requires HistOk(hist, floor) && CommitsOk(hist, floor, commits) && LiveOk(hist, commits, floor, disk, v)
    requires t in v.txns && v.txns[t].writes != map[] && KeysOf(keys, v.txns[t].writes) && !Conflicts(v, v.txns[t])
    ensures CommitsOk(hist + Numbered(Entries(keys, v.txns[t].writes), v.nextSeq), floor,
                      commits + [Commit(v.txns[t], v.nextSeq, |hist|)])
  {
    var c := Commit(v.txns[t], v.nextSeq, |hist|);
    var rows := Numbered(Entries(keys, c.txn.writes), v.nextSeq);
    NewCommitOk(hist, commits, floor, disk, v, c.txn, keys);
    if floor == I64_MIN { NewCommitsOrdered(hist, commits, disk, v, c); }
    forall i | 0 <= i < |commits| ensures Stop(commits[i]) <= c.at { assert CommitOk(hist, floor, commits[i]); }
    CommitsStable(hist, floor, rows, commits);
    CommitsSnoc(hist + rows, floor, commits, c);
  }

  lemma CommitNumbers(hist: seq<Row>, commits: seq<Commit>, floor: I64, disk: Disk, v: Live, t: nat, keys: seq<Key>)
    requires NumbersOk(hist, commits, floor, v) && LiveOk(hist, commits, floor, disk, v)
    requires v.writers == map[] && t in v.txns && v.txns[t].writes != map[] && KeysOf(keys, v.txns[t].writes)
    requires !Conflicts(v, v.txns[t])
    ensures var rows := Numbered(Entries(keys, v.txns[t].writes), v.nextSeq);
            && NumbersOk(hist + rows, commits + [Commit(v.txns[t], v.nextSeq, |hist|)], floor,
                         v.(nextSeq := v.nextSeq + |keys|, txns := v.txns - {t}))
            && RowSet(hist + rows) == RowSet(hist) + RowSet(rows)
  {
    var entries := Entries(keys, v.txns[t].writes);
    FreshBatch(hist, floor, v.nextSeq, entries);
    NumberedRows(entries, v.nextSeq, floor);
    CommitKept(hist, commits, floor, disk, v, t, keys);
    TxnsStable(hist, floor, v.nextSeq, v.writers, v.txns, Numbered(entries, v.nextSeq));
  }

  lemma CommitWritesOk(hist: seq<Row>, commits: seq<Commit>, floor: I64, disk: Disk, v: Live, t: nat, keys: seq<Key>)
    requires HistOk(hist, floor) && CommitsOk(hist, floor, commits)
    requires LiveOk(hist, commits, floor, disk, v)
    requires LiveEnabled(State(Up(v), disk, hist, commits, floor), v, CommitWrites(t, keys))
    ensures Inv(LiveStep(State(Up(v), disk, hist, commits, floor), v, CommitWrites(t, keys)))
  {
    CommitNumbers(hist, commits, floor, disk, v, t, keys);
    AppendOk(hist, commits, floor, disk, v, Numbered(Entries(keys, v.txns[t].writes), v.nextSeq),
             v.(nextSeq := v.nextSeq + |keys|, txns := v.txns - {t}), commits + [Commit(v.txns[t], v.nextSeq, |hist|)]);
  }
}
