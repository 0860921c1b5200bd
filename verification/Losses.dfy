/**
 Crashes that also lose what the active log's buffered writer had not synced (src/memtable/wal.rs:67-97): a suffix of its
 batches. Such a crash leaves the disk as it would be had the lost batches never been written, so that everything proved of
 runs holds of what survives.
 */
module Losses {
  import opened Rows
  import opened Machine
  import opened Invariant
  import opened Safety

  predicate WriterLabel(l: Label) {
    l.Allocate? || l.Insert? || l.WriteBatch? || l.CommitWrites? || TxnLabel(l)
  }

  /** What the worker does, besides freezing, which closes the active log. */
  predicate WorkerLabel(l: Label) {
    (FlushLabel(l) && !l.Freeze?) || CompactLabel(l)
  }

  /** The worker's part of a run. */
  ghost function Background(ls: seq<Label>): (r: seq<Label>)
    ensures forall l | l in r :: l in ls && WorkerLabel(l)
  {
    if ls == [] then [] else (if WorkerLabel(ls[0]) then [ls[0]] else []) + Background(ls[1..])
  }

  /** The two states differ in what writers and transactions have done since, and in the active log. */
  ghost predicate Alike(a: State, b: State) {
    && a.process.Up? && b.process.Up? && a.floor == b.floor
    && SameLive(a.process.live, b.process.live)
    && a.disk.files == b.disk.files && a.disk.manifest == b.disk.manifest
    && SameWals(a.disk.wals, b.disk.wals, a.process.live.active.id)
  }

  predicate SameLive(v: Live, w: Live) {
    && v.active.id == w.active.id && v.imms == w.imms && v.ssts == w.ssts && v.nextSst == w.nextSst && v.job == w.job
    && v.doomedSsts == w.doomedSsts && v.doomedWals == w.doomedWals
  }

  predicate SameWals(a: map<nat, seq<Row>>, b: map<nat, seq<Row>>, id: nat) {
    id in a && id in b && a - {id} == b - {id}
  }

  lemma WriterStep(a: State, b: State, l: Label)
    requires Alike(a, b) && Enabled(a, l) && WriterLabel(l)
    ensures Alike(Step(a, l), b)
  {
    if TxnLabel(l) {
    } else if l.Allocate? {
    } else {
      AppendAlike(a, b, l);
    }
  }

  lemma AppendAlike(a: State, b: State, l: Label)
    requires Alike(a, b) && Enabled(a, l) && (l.Insert? || l.WriteBatch? || l.CommitWrites?)
    ensures Alike(Step(a, l), b)
  {
  }

  /** Rows that a step makes durable go to the active log's end. */
  lemma Logged(a: State, l: Label)
    requires a.process.Up? && Enabled(a, l) && WriterLabel(l)
    ensures Step(a, l).process.live.active == Table(a.process.live.active.id, a.process.live.active.rows + Adds(a, l))
  {
  }

  lemma RemovedAlike(a: map<nat, seq<Row>>, b: map<nat, seq<Row>>, id: nat, n: nat)
    requires SameWals(a, b, id) && n != id
    ensures SameWals(a - {n}, b - {n}, id)
  {
    assert a - {n} - {id} == a - {id} - {n} && b - {n} - {id} == b - {id} - {n};
  }

  /** What `b` keeps when the worker does something. */
  ghost predicate Kept(b: State, b': State, id: nat) {
    && b'.hist == b.hist && b'.commits == b.commits && id in b.disk.wals && id in b'.disk.wals
    && b'.disk.wals[id] == b.disk.wals[id]
  }

  lemma RemovingStep(a: State, b: State, l: Label)
    requires Alike(a, b) && Enabled(a, l) && l.RemoveWal? && l.wal != a.process.live.active.id
    ensures Enabled(b, l) && Alike(Step(a, l), Step(b, l)) && Kept(b, Step(b, l), a.process.live.active.id)
    ensures Step(a, l).process.live.active == a.process.live.active
  {
    RemovedAlike(a.disk.wals, b.disk.wals, a.process.live.active.id, l.wal);
  }

  lemma FlushingStep(a: State, b: State, l: Label)
    requires Alike(a, b) && Enabled(a, l) && (l.FlushWrite? || l.FlushPublish? || l.FlushFinish?)
    ensures Enabled(b, l) && Alike(Step(a, l), Step(b, l)) && Kept(b, Step(b, l), a.process.live.active.id)
    ensures Step(a, l).process.live.active == a.process.live.active
  {
  }

  lemma CompactingStep(a: State, b: State, l: Label)
    requires Alike(a, b) && Enabled(a, l) && CompactLabel(l)
    ensures Enabled(b, l) && Alike(Step(a, l), Step(b, l)) && Kept(b, Step(b, l), a.process.live.active.id)
    ensures Step(a, l).process.live.active == a.process.live.active
  {
  }

  lemma WorkerStep(a: State, b: State, l: Label)
    requires Inv(a) && Alike(a, b) && Enabled(a, l) && WorkerLabel(l)
    ensures Enabled(b, l) && Alike(Step(a, l), Step(b, l)) && Kept(b, Step(b, l), a.process.live.active.id)
    ensures Step(a, l).process.live.active == a.process.live.active && Adds(a, l) == []
  {
    if CompactLabel(l) {
      CompactingStep(a, b, l);
    } else if l.RemoveWal? {
      assert l.wal in a.process.live.doomedWals;
      RemovingStep(a, b, l);
    } else {
      FlushingStep(a, b, l);
    }
  }

  /** What is left of `b` once only the worker's steps of the run are taken. */
  ghost predicate Outcome(a: State, b: State, ls: seq<Label>)
    requires a.process.Up? && Runs(a, ls)
  {
    && Runs(b, Background(ls)) && Alike(Run(a, ls), Run(b, Background(ls)))
    && Kept(b, Run(b, Background(ls)), a.process.live.active.id)
    && Run(a, ls).process.live.active == Table(a.process.live.active.id, a.process.live.active.rows + AddsOf(a, ls))
  }

  lemma WorkerFirst(a: State, b: State, ls: seq<Label>)
    requires a.process.Up? && ls != [] && Runs(a, ls) && WorkerLabel(ls[0]) && Enabled(b, ls[0])
    requires var a', b' := Step(a, ls[0]), Step(b, ls[0]);
             && a'.process.Up? && a'.process.live.active == a.process.live.active && Adds(a, ls[0]) == []
             && Kept(b, b', a.process.live.active.id) && Outcome(a', b', ls[1..])
    ensures Outcome(a, b, ls)
  {
    assert Background(ls)[0] == ls[0] && Background(ls)[1..] == Background(ls[1..]);
    SeqAssoc(AddsOf(Step(a, ls[0]), ls[1..]), [], []);
  }

  lemma WriterFirst(a: State, b: State, ls: seq<Label>)
    requires a.process.Up? && ls != [] && Runs(a, ls) && !WorkerLabel(ls[0])
    requires var a' := Step(a, ls[0]);
             && a'.process.Up? && Outcome(a', b, ls[1..])
             && a'.process.live.active == Table(a.process.live.active.id, a.process.live.active.rows + Adds(a, ls[0]))
    ensures Outcome(a, b, ls)
  {
    assert Background(ls) == Background(ls[1..]);
    SeqAssoc(a.process.live.active.rows, Adds(a, ls[0]), AddsOf(Step(a, ls[0]), ls[1..]));
  }

  /** The worker's steps are possible without the writers', and do the same. */
  lemma {:induction false} AlikeRuns(a: State, b: State, ls: seq<Label>)
    requires Inv(a) && Alike(a, b) && Runs(a, ls) && forall l | l in ls :: !l.Crash? && !l.Freeze?
    ensures Outcome(a, b, ls)
    decreases |ls|
  {
    if ls == [] {
      SeqAssoc(a.process.live.active.rows, [], []);
    } else {
      assert ls[0] in ls;
      StepOk(a, ls[0]);
      if WorkerLabel(ls[0]) {
        WorkerStep(a, b, ls[0]);
        AlikeRuns(Step(a, ls[0]), Step(b, ls[0]), ls[1..]);
        WorkerFirst(a, b, ls);
      } else {
        WriterStep(a, b, ls[0]);
        Logged(a, ls[0]);
        AlikeRuns(Step(a, ls[0]), b, ls[1..]);
        WriterFirst(a, b, ls);
      }
    }
  }

  /** Running region `e` has crashed, and of its active log only what region `s` had is left. */
  ghost function Lost(s: State, e: State): State
    requires s.process.Up?
  {
    var active := s.process.live.active;
    State(Down, e.disk.(wals := e.disk.wals[active.id := active.rows]), s.hist, s.commits, e.floor)
  }

  /**
   A region is up in state `s`, goes on for any run without a freeze, and crashes, and the active log comes back only as far
   as it was in `s`. What is on disk then is what the worker's steps alone would have left: a reachable state whose history
   is that of `s`. What is lost is what was appended since.
   */
  lemma LossyCrash(s: State, ls: seq<Label>)
    requires Reachable(s) && s.process.Up? && Runs(s, ls) && forall l | l in ls :: !l.Crash? && !l.Freeze?
    ensures var e := Run(s, ls);
            && e.process.Up? && e.process.live.active.rows == s.process.live.active.rows + AddsOf(s, ls)
            && e.hist == s.hist + AddsOf(s, ls)
            && Reachable(Lost(s, e))
  {
    ReachableOk(s);
    AlikeRuns(s, s, ls);
    AddsOfAre(s, ls);
    var e, b := Run(s, ls), Run(s, Background(ls));
    ReachableRun(s, Background(ls));
    LostWals(e.disk.wals, b.disk.wals, s.process.live.active.id);
    ReachableRun(b, [Crash]);
  }

  lemma LostWals(a: map<nat, seq<Row>>, b: map<nat, seq<Row>>, id: nat)
    requires SameWals(a, b, id)
    ensures a[id := b[id]] == b
  {
    forall n | n in a || n in b
      ensures n in a[id := b[id]] <==> n in b
      ensures n in b ==> a[id := b[id]][n] == b[n]
    {
      assert n in a - {id} <==> n in b - {id};
      if n != id && n in b { assert (a - {id})[n] == (b - {id})[n]; }
    }
  }

  /** Reopened, the region shows exactly the newest version of every row that survived and has not expired. */
  lemma LossyCrashShows(s: State, ls: seq<Label>, opening: seq<Label>)
    requires Reachable(s) && s.process.Up? && Runs(s, ls) && forall l | l in ls :: !l.Crash? && !l.Freeze?
    requires var down := Lost(s, Run(s, ls));
             Runs(down, opening) && (forall l | l in opening :: Internal(l)) && Run(down, opening).process.Up?
    ensures var up := Run(Lost(s, Run(s, ls)), opening);
            View(Visible(up.process.live), up.floor) == View(NewestMap(s.hist), up.floor)
  {
    LossyCrash(s, ls);
    var down := Lost(s, Run(s, ls));
    ReachableRun(down, opening);
    InternalKeepsHistory(down, opening);
    VisibleIsHistory(Run(down, opening));
  }
}
