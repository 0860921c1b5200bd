/** Safety over whole runs: nothing is lost or invented by a crash, a reopen or the worker. */
module Safety {
  import opened Rows
  import opened Machine
  import opened Invariant
  import opened WorkerSteps
  import opened WriterSteps
  import opened OpenSteps

  lemma InitialOk()
    ensures Inv(INITIAL)
  {
    assert FileRows(INITIAL.disk) == {} && WalRows(INITIAL.disk.wals) == {};
  }

  predicate FlushLabel(l: Label) {
    l.Freeze? || l.FlushWrite? || l.FlushPublish? || l.FlushFinish? || l.RemoveWal?
  }

  predicate CompactLabel(l: Label) {
    l.CompactStart? || l.CompactWrite? || l.CompactPublish? || l.CompactFinish? || l.RemoveSst?
  }

  /** What a transaction does short of a commit that writes. */
  predicate TxnLabel(l: Label) {
    l.Begin? || l.TxnWrite? || l.CommitConflict? || l.CommitNothing? || l.Drop?
  }

  lemma FlushStepOk(s: State, v: Live, l: Label)
    requires Inv(s) && s.process == Up(v) && LiveEnabled(s, v, l) && FlushLabel(l)
    ensures Inv(LiveStep(s, v, l))
  {
    match l
    case Freeze => FreezeOk(s.hist, s.commits, s.floor, s.disk, v);
    case FlushWrite(n, rows) =>
      var m :| m in v.imms && m.id == n && Lists(rows, NewestMap(m.rows));
      FlushWriteOk(s.hist, s.commits, s.floor, s.disk, v, n, rows, m);
    case FlushPublish => FlushPublishOk(s.hist, s.commits, s.floor, s.disk, v);
    case FlushFinish => FlushFinishOk(s.hist, s.commits, s.floor, s.disk, v);
    case RemoveWal(n) => RemoveWalOk(s.hist, s.commits, s.floor, s.disk, v, n);
  }

  lemma CompactBeginsOk(s: State, v: Live, l: Label)
    requires Inv(s) && s.process == Up(v) && LiveEnabled(s, v, l) && l.CompactStart?
    ensures Inv(LiveStep(s, v, l))
  {
    CompactStartOk(s.hist, s.commits, s.floor, s.disk, v, l.window, l.threshold, l.w, l.cutoff, l.merged);
    CommitsLater(s.hist, s.floor, s.commits, if l.cutoff > s.floor then l.cutoff else s.floor);
  }

  lemma CompactStepOk(s: State, v: Live, l: Label)
    requires Inv(s) && s.process == Up(v) && LiveEnabled(s, v, l) && CompactLabel(l)
    ensures Inv(LiveStep(s, v, l))
  {
    match l
    case CompactStart(_, _, _, _, _) => CompactBeginsOk(s, v, l);
    case CompactWrite => CompactWriteOk(s.hist, s.commits, s.floor, s.disk, v);
    case CompactPublish =>
      if v.job.Merging? {
        CompactDropOk(s.hist, s.commits, s.floor, s.disk, v);
      } else {
        CompactPublishOk(s.hist, s.commits, s.floor, s.disk, v);
      }
    case CompactFinish => CompactFinishOk(s.hist, s.commits, s.floor, s.disk, v);
    case RemoveSst(id) => RemoveSstOk(s.hist, s.commits, s.floor, s.disk, v, id);
  }

  lemma WriterStepOk(s: State, v: Live, l: Label)
    requires Inv(s) && s.process == Up(v) && LiveEnabled(s, v, l)
    requires !FlushLabel(l) && !CompactLabel(l) && !TxnLabel(l)
    ensures Inv(LiveStep(s, v, l))
  {
    var hist, commits, floor, disk := s.hist, s.commits, s.floor, s.disk;
    assert s == State(Up(v), disk, hist, commits, floor);
    match l
    case Crash => CrashWhileUp(hist, commits, floor, disk, v);
    case Allocate(key, value) => AllocateOk(hist, commits, floor, disk, v, key, value);
    case Insert(n) => InsertOk(hist, commits, floor, disk, v, n);
    case WriteBatch(entries) => WriteBatchOk(hist, commits, floor, disk, v, entries);
    case CommitWrites(t, keys) => CommitWritesOk(hist, commits, floor, disk, v, t, keys);
  }

  lemma TxnStepOk(s: State, v: Live, l: Label)
    requires Inv(s) && s.process == Up(v) && LiveEnabled(s, v, l) && TxnLabel(l)
    ensures Inv(LiveStep(s, v, l))
  {
    var hist, commits, floor, disk := s.hist, s.commits, s.floor, s.disk;
    match l
    case Begin(t, sources) => BeginOk(hist, commits, floor, disk, v, t, sources);
    case TxnWrite(t, key, value) => TxnWriteOk(hist, commits, floor, disk, v, t, key, value);
    case CommitConflict(t) => EndTxnOk(hist, commits, floor, disk, v, t);
    case CommitNothing(t) => EndTxnOk(hist, commits, floor, disk, v, t);
    case Drop(t) => EndTxnOk(hist, commits, floor, disk, v, t);
  }

  lemma OpeningStepOk(s: State, r: Recovery, l: Label)
    requires Inv(s) && s.process == Opening(r) && OpeningEnabled(s, r, l)
    ensures Inv(OpeningStep(s, r, l))
  {
    match l
    case Crash => CrashWhileOpening(s.hist, s.floor, s.disk, r);
    case OrphanLoad(n) => OrphanLoadOk(s.hist, s.floor, s.disk, r, n);
    case OrphanRow(k) =>
      if k in NewestMap(r.active.rows) && NewestMap(r.active.rows)[k].seqNo >= r.latest[k].seqNo {
        OrphanSkippedOk(s.hist, s.floor, s.disk, r, k);
      } else {
        OrphanKeptOk(s.hist, s.floor, s.disk, r, k);
      }
    case OrphanDone(removed) => OrphanDoneOk(s.hist, s.floor, s.disk, r, removed);
    case OpenDone => OpenDoneOk(s.hist, s.commits, s.floor, s.disk, r);
    case _ =>
  }

  /** Every step of the protocol, by whichever thread, keeps the invariant. */
  lemma StepOk(s: State, l: Label)
    requires Inv(s) && Enabled(s, l)
    ensures Inv(Step(s, l))
  {
    match s.process
    case Down => OpenStartOk(s.hist, s.floor, s.disk, l.last, l.loaded);
    case Opening(r) => OpeningStepOk(s, r, l);
    case Up(v) =>
      if FlushLabel(l) {
        FlushStepOk(s, v, l);
      } else if CompactLabel(l) {
        CompactStepOk(s, v, l);
      } else if TxnLabel(l) {
        TxnStepOk(s, v, l);
      } else {
        WriterStepOk(s, v, l);
      }
  }

  lemma {:induction false} RunOk(s: State, ls: seq<Label>)
    requires Inv(s) && Runs(s, ls)
    ensures Inv(Run(s, ls))
    decreases ls
  {
    if ls != [] {
      StepOk(s, ls[0]);
      RunOk(Step(s, ls[0]), ls[1..]);
    }
  }

  lemma ReachableOk(s: State)
    requires Reachable(s)
    ensures Inv(s)
  {
    var ls :| Runs(INITIAL, ls) && Run(INITIAL, ls) == s;
    InitialOk();
    RunOk(INITIAL, ls);
  }

  lemma {:induction false} RunConcat(s: State, a: seq<Label>, b: seq<Label>)
    requires Runs(s, a)
    ensures Runs(s, a + b) <==> Runs(Run(s, a), b)
    ensures Runs(s, a + b) ==> Run(s, a + b) == Run(Run(s, a), b)
    decreases a
  {
    if a == [] {
      assert a + b == b;
    } else {
      assert (a + b)[1..] == a[1..] + b;
      RunConcat(Step(s, a[0]), a[1..], b);
    }
  }

  lemma ReachableRun(s: State, ls: seq<Label>)
    requires Reachable(s) && Runs(s, ls)
    ensures Reachable(Run(s, ls))
  {
    var before :| Runs(INITIAL, before) && Run(INITIAL, before) == s;
    RunConcat(INITIAL, before, ls);
  }

  // ---------- The first open ----------

  const FIRST_OPEN: seq<Label> := [OpenStart(0, []), OpenDone]

  /** A region that has come up for the first time. */
  const OPENED: State :=
    State(Up(Live(Table(0, []), [], [], 1, 0, map[], map[], Idle, {}, {})), Disk(map[], Some({}), map[0 := []]), [], [],
          I64_MIN)

  lemma FirstOpen()
    ensures Runs(INITIAL, FIRST_OPEN) && Run(INITIAL, FIRST_OPEN) == OPENED && Reachable(OPENED)
  {
    var l, l' := OpenStart(0, []), OpenDone;
    var wals: map<nat, seq<Row>> := map[0 := []];
    assert WalsAtOpen(INITIAL.disk) == wals;
    assert wals.Keys - {0} == {};
    assert Loaded(INITIAL.disk) == {} == Ids([]);
    var s := Step(INITIAL, l);
    assert s.process == Opening(Recovery([], true, Table(0, []), {}, None, map[]));
    assert Step(s, l') == OPENED;
    assert FIRST_OPEN[1..] == [l'] && [l'][1..] == [];
    assert Runs(OPENED, []) && Runs(s, [l']);
  }

  // ---------- The visible map ----------

  /** What merging all sources of the version shows. */
  function Visible(v: Live): map<Key, Row> {
    NewestMap(RowsOf(Sources(v)))
  }

  /** Of every key that has not expired, the version shows the newest row ever made durable. */
  lemma VisibleIsHistory(s: State)
    requires Reachable(s) && s.process.Up?
    ensures View(Visible(s.process.live), s.floor) == View(NewestMap(s.hist), s.floor)
    ensures s.floor == I64_MIN ==> Visible(s.process.live) == NewestMap(s.hist)
  {
    ReachableOk(s);
    SourcesShowHistory(s.hist, s.commits, s.floor, s.disk, s.process.live);
  }

  /** The rows a step makes durable. */
  function Adds(s: State, l: Label): seq<Row>
    requires Enabled(s, l)
  {
    if !s.process.Up? then []
    else
      var v := s.process.live;
      match l
      case Insert(n) => [Row(v.writers[n].0, n, v.writers[n].1)]
      case WriteBatch(entries) => Numbered(entries, v.nextSeq)
      case CommitWrites(t, keys) => Numbered(Entries(keys, v.txns[t].writes), v.nextSeq)
      case _ => []
  }

  function AddsOf(s: State, ls: seq<Label>): seq<Row>
    requires Runs(s, ls)
    decreases ls
  {
    if ls == [] then [] else Adds(s, ls[0]) + AddsOf(Step(s, ls[0]), ls[1..])
  }

  lemma AddsAre(s: State, l: Label)
    requires Enabled(s, l)
    ensures Step(s, l).hist == s.hist + Adds(s, l)
  {
  }

  lemma {:induction false} AddsOfAre(s: State, ls: seq<Label>)
    requires Runs(s, ls)
    ensures Run(s, ls).hist == s.hist + AddsOf(s, ls)
    decreases ls
  {
    if ls != [] {
      AddsAre(s, ls[0]);
      AddsOfAre(Step(s, ls[0]), ls[1..]);
      SeqAssoc(s.hist, Adds(s, ls[0]), AddsOf(Step(s, ls[0]), ls[1..]));
    }
  }

  /** No compaction of the run uses a cutoff above `cutoff`. */
  ghost predicate CutoffsUpTo(ls: seq<Label>, cutoff: I64) {
    forall l | l in ls && l.CompactStart? :: l.cutoff <= cutoff
  }

  lemma {:induction false} FloorUpTo(s: State, ls: seq<Label>, cutoff: I64)
    requires Runs(s, ls) && CutoffsUpTo(ls, cutoff) && s.floor <= cutoff
    ensures s.floor <= Run(s, ls).floor <= cutoff
    decreases ls
  {
    if ls != [] {
      assert ls[0] in ls;
      FloorUpTo(Step(s, ls[0]), ls[1..], cutoff);
    }
  }

  /**
   Crash consistency. Run a region in any way from its first open: writers, batches and commits interleaved with
   freezing, flushing, compacting with or without a cutoff, file removal, and any number of crashes, also in the middle
   of reopening. Whenever it is up, what it shows from a cutoff on that no compaction exceeded is exactly the newest
   version of every row ever made durable, tombstones included.
   */
  lemma CrashConsistency(ls: seq<Label>, cutoff: I64)
    requires Runs(INITIAL, ls) && Run(INITIAL, ls).process.Up? && CutoffsUpTo(ls, cutoff)
    ensures View(Visible(Run(INITIAL, ls).process.live), cutoff) == View(NewestMap(AddsOf(INITIAL, ls)), cutoff)
    ensures cutoff == I64_MIN ==> Visible(Run(INITIAL, ls).process.live) == NewestMap(AddsOf(INITIAL, ls))
  {
    var s := Run(INITIAL, ls);
    AddsOfAre(INITIAL, ls);
    assert INITIAL.hist + AddsOf(INITIAL, ls) == AddsOf(INITIAL, ls);
    FloorUpTo(INITIAL, ls, cutoff);
    VisibleIsHistory(s);
    ViewNarrows(Visible(s.process.live), NewestMap(s.hist), s.floor, cutoff);
  }

  /** Steps that are nobody's write: the worker's, a reader's, a crash's, and those of reopening. */
  predicate Internal(l: Label) {
    !l.Insert? && !l.WriteBatch? && !l.CommitWrites?
  }

  lemma InternalStepAddsNothing(s: State, l: Label)
    requires Enabled(s, l) && Internal(l)
    ensures Adds(s, l) == []
  {
  }

  lemma {:induction false} InternalKeepsHistory(s: State, ls: seq<Label>)
    requires Runs(s, ls) && forall l | l in ls :: Internal(l)
    ensures Run(s, ls).hist == s.hist
    decreases ls
  {
    if ls != [] {
      InternalStepAddsNothing(s, ls[0]);
      AddsAre(s, ls[0]);
      InternalKeepsHistory(Step(s, ls[0]), ls[1..]);
    }
  }

  /** However long the worker runs and however often the region crashes, what it shows does not change. */
  lemma InternalStepsKeepMap(s: State, ls: seq<Label>)
    requires Reachable(s) && s.process.Up?
    requires Runs(s, ls) && (forall l | l in ls :: Internal(l)) && Run(s, ls).process.Up?
    ensures var s' := Run(s, ls);
            && View(Visible(s'.process.live), s'.floor) == View(Visible(s.process.live), s'.floor)
            && (s'.floor == I64_MIN ==> Visible(s'.process.live) == Visible(s.process.live))
  {
    ReachableRun(s, ls);
    InternalKeepsHistory(s, ls);
    FloorUpTo(s, ls, I64_MAX);
    VisibleIsHistory(s);
    VisibleIsHistory(Run(s, ls));
    ViewNarrows(Visible(s.process.live), NewestMap(s.hist), s.floor, Run(s, ls).floor);
  }

  /**
   A crash may come at any instant. It takes what is in memory and nothing else, and what it leaves on disk already stands
   for everything made durable.
   */
  lemma DiskHoldsHistory(s: State)
    requires Reachable(s)
    ensures s.process != Down ==> Enabled(s, Crash) && Step(s, Crash) == State(Down, s.disk, s.hist, s.commits, s.floor)
    ensures Covers(RowSet(s.hist), FileRows(s.disk) + WalRows(s.disk.wals), s.floor)
  {
    ReachableOk(s);
    match s.process
    case Down =>
    case Opening(r) => CrashWhileOpening(s.hist, s.floor, s.disk, r);
    case Up(v) => CrashWhileUp(s.hist, s.commits, s.floor, s.disk, v);
  }
}
