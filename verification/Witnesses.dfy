/**
 Runs of the state machine that show what does not hold (src/memtable/memtable.rs): one after which `get` answers with a
 deleted value, and one after which two rows have the same number.
 */
module Witnesses {
  import opened Rows
  import opened Machine
  import opened Safety
  import opened Reads
  import opened Compaction
  import opened RegionCode

  const WINDOW := 100
  const THRESHOLD: nat := 2

  const K := Key([], 200)
  const PUT := Row(K, 2, Some([7]))
  const DELETED := Row(K, 3, None)
  const A := Row(Key([], 0), 1, Some([1]))
  const B := Row(Key([], 1), 4, Some([1]))
  const C := Row(Key([], 201), 5, Some([1]))

  /** Flushed in this order: windows 0, 2 and 0; then, after the first compaction, window 2 again. */
  const FLUSHED0 := Table(0, [A, PUT])
  const FLUSHED1 := Table(1, [DELETED])
  const FLUSHED2 := Table(2, [B])
  const MERGED3 := Table(3, [A, B, PUT])
  const FLUSHED4 := Table(4, [C])
  const MERGED5 := Table(5, [DELETED, C])

  lemma GroupCons(t: Table, ts: seq<Table>, w: int)
    ensures Group([t] + ts, WINDOW, w)
         == (if t.rows != [] && WindowOf(t, WINDOW) == w then [t] else []) + Group(ts, WINDOW, w)
  {
    assert ([t] + ts)[1..] == ts;
  }

  lemma MinTsCons(r: Row, rows: seq<Row>)
    ensures MinTs([r] + rows) == if rows == [] || r.key.ts <= MinTs(rows) then r.key.ts else MinTs(rows)
  {
    assert ([r] + rows)[1..] == rows;
  }

  lemma WithoutCons(t: Table, ts: seq<Table>, ids: set<nat>)
    ensures Without([t] + ts, ids) == (if t.id in ids then [] else [t]) + Without(ts, ids)
  {
    assert ([t] + ts)[1..] == ts;
  }

  lemma Windows()
    ensures WindowOf(FLUSHED0, WINDOW) == 0 && WindowOf(FLUSHED2, WINDOW) == 0 && WindowOf(MERGED3, WINDOW) == 0
    ensures WindowOf(FLUSHED1, WINDOW) == 2 && WindowOf(FLUSHED4, WINDOW) == 2
  {
    MinTsCons(A, [PUT]);
    MinTsCons(B, [PUT]);
    MinTsCons(A, [B, PUT]);
    assert [A] + [PUT] == FLUSHED0.rows && [B] + [PUT] == [B, PUT] && [A] + [B, PUT] == MERGED3.rows;
  }

  lemma FirstGroups(w: int)
    ensures Group([FLUSHED0, FLUSHED1, FLUSHED2], WINDOW, w)
         == if w == 0 then [FLUSHED0, FLUSHED2] else if w == 2 then [FLUSHED1] else []
  {
    Windows();
    GroupCons(FLUSHED2, [], w);
    GroupCons(FLUSHED1, [FLUSHED2], w);
    GroupCons(FLUSHED0, [FLUSHED1, FLUSHED2], w);
    assert [FLUSHED0] + [FLUSHED1, FLUSHED2] == [FLUSHED0, FLUSHED1, FLUSHED2];
    assert [FLUSHED1] + [FLUSHED2] == [FLUSHED1, FLUSHED2];
    assert [FLUSHED2] + [] == [FLUSHED2];
  }

  lemma SecondGroups(w: int)
    ensures Group([FLUSHED1, MERGED3, FLUSHED4], WINDOW, w)
         == if w == 0 then [MERGED3] else if w == 2 then [FLUSHED1, FLUSHED4] else []
  {
    Windows();
    GroupCons(FLUSHED4, [], w);
    GroupCons(MERGED3, [FLUSHED4], w);
    GroupCons(FLUSHED1, [MERGED3, FLUSHED4], w);
    assert [FLUSHED1] + [MERGED3, FLUSHED4] == [FLUSHED1, MERGED3, FLUSHED4];
    assert [MERGED3] + [FLUSHED4] == [MERGED3, FLUSHED4];
    assert [FLUSHED4] + [] == [FLUSHED4];
  }

  lemma Pairs(a: Table, b: Table)
    ensures RowsOf([a, b]) == a.rows + b.rows
    ensures Reverse([a, b]) == [b, a]
  {
    assert [a, b][1..] == [b] && [b][1..] == [];
    assert RowsOf([b]) == b.rows + [] == b.rows;
    assert Reverse([b]) == [] + [b] == [b];
  }

  lemma FirstOutput()
    ensures Lists(MERGED3.rows, NewestMap(Unexpired(RowsOf([FLUSHED0, FLUSHED2]), I64_MIN)))
  {
    Pairs(FLUSHED0, FLUSHED2);
    assert RowsOf([FLUSHED0, FLUSHED2]) == [A, PUT, B];
    UnexpiredAll([A, PUT, B]);
    SortedListing([A, PUT, B], MERGED3.rows);
  }

  lemma SecondOutput()
    ensures Lists(MERGED5.rows, NewestMap(Unexpired(RowsOf([FLUSHED1, FLUSHED4]), I64_MIN)))
  {
    Pairs(FLUSHED1, FLUSHED4);
    assert RowsOf([FLUSHED1, FLUSHED4]) == [DELETED, C];
    UnexpiredAll([DELETED, C]);
    SortedListing([DELETED, C], MERGED5.rows);
  }

  lemma WithoutOuter(a: Table, b: Table, c: Table)
    requires a.id != b.id && b.id != c.id
    ensures Without([a, b, c], {a.id, c.id}) == [b]
    ensures Ids([a, c]) == {a.id, c.id}
  {
    var ids := {a.id, c.id};
    WithoutCons(c, [], ids);
    WithoutCons(b, [c], ids);
    WithoutCons(a, [b, c], ids);
    assert [a] + [b, c] == [a, b, c] && [b] + [c] == [b, c] && [c] + [] == [c];
    assert a in [a, c] && c in [a, c];
  }

  lemma FirstMerge()
    ensures Output([FLUSHED0, FLUSHED1, FLUSHED2], WINDOW, THRESHOLD, 0, I64_MIN, MERGED3)
    ensures Compacted([FLUSHED0, FLUSHED1, FLUSHED2], WINDOW, 0, MERGED3) == [FLUSHED1, MERGED3]
  {
    FirstOutput();
    FirstGroups(0);
    forall w | w < 0 ensures Group([FLUSHED0, FLUSHED1, FLUSHED2], WINDOW, w) == [] { FirstGroups(w); }
    WithoutOuter(FLUSHED0, FLUSHED1, FLUSHED2);
  }

  lemma SecondMerge()
    ensures Output([FLUSHED1, MERGED3, FLUSHED4], WINDOW, THRESHOLD, 2, I64_MIN, MERGED5)
    ensures Compacted([FLUSHED1, MERGED3, FLUSHED4], WINDOW, 2, MERGED5) == [MERGED3, MERGED5]
  {
    SecondOutput();
    SecondGroups(2);
    forall w | w < 2
      ensures Group([FLUSHED1, MERGED3, FLUSHED4], WINDOW, w) == (if w == 0 then [MERGED3] else [])
    {
      SecondGroups(w);
    }
    WithoutOuter(FLUSHED1, MERGED3, FLUSHED4);
  }

  lemma Lookups()
    ensures Lookup(MERGED3, K) == Some(PUT) && Lookup(MERGED5, K) == Some(DELETED)
    ensures MaxSeq(MERGED3.rows) == 4 && MaxSeq(MERGED5.rows) == 5
  {
    LookupMeans(MERGED3, K);
    LookupMeans(MERGED5, K);
    assert PUT in MERGED3.rows && DELETED in MERGED5.rows && B in MERGED3.rows && C in MERGED5.rows;
    MaxSeqIsMax(MERGED3.rows);
    MaxSeqIsMax(MERGED5.rows);
  }

  /** The second table has a number above the row found in the first, so its own row is taken. */
  lemma LastVisited(empty: Table, a: Table, b: Table, k: Key, p: Row, r: Row)
    requires empty.rows == [] && Lookup(a, k) == Some(p) && Lookup(b, k) == Some(r)
    requires MaxSeq(a.rows) > 0 && MaxSeq(b.rows) > p.seqNo
    ensures VisitAll([empty, a, b], k) == Some(r)
  {
    VisitSnoc([], empty, k);
    VisitSnoc([empty], a, k);
    VisitSnoc([empty, a], b, k);
    assert [] + [empty] == [empty] && [empty] + [a] == [empty, a] && [empty, a] + [b] == [empty, a, b];
  }

  lemma VisitLast(empty: Table)
    requires empty.rows == []
    ensures VisitAll([empty, MERGED5, MERGED3], K) == Some(PUT)
  {
    Lookups();
    LastVisited(empty, MERGED5, MERGED3, K, DELETED, PUT);
  }

  lemma TwoTables(empty: Table, a: Table, b: Table, rows: set<Row>, r: Row)
    requires empty.rows == [] && rows == RowSet(a.rows) + RowSet(b.rows)
    requires (forall q, q' | q in rows && q' in rows && q.seqNo == q'.seqNo :: q == q')
    requires (forall q | q in rows :: q.seqNo >= 1) && IsNewest(rows, r) && r.key == K
    ensures NewestOf([empty, a, b], K) == Some(r)
  {
    assert TableRows([empty, a, b]) == rows;
    NewestOfIs([empty, a, b], K, r);
  }

  lemma NewestLast(empty: Table)
    requires empty.rows == []
    ensures NewestOf([empty, MERGED5, MERGED3], K) == Some(DELETED)
  {
    var rows := RowSet(MERGED5.rows) + RowSet(MERGED3.rows);
    assert rows == {A, B, PUT, DELETED, C};
    TwoTables(empty, MERGED5, MERGED3, rows, DELETED);
  }

  // ---------- Rounds ----------

  /** A region between two rounds: nothing in memory, one empty log, and these tables. */
  function At(ssts: seq<Table>, wal: nat, nextSeq: nat, nextSst: nat, doomed: set<nat>, files: map<nat, seq<Row>>,
              hist: seq<Row>): State
  {
    State(Up(Live(Table(wal, []), [], ssts, nextSeq, nextSst, map[], map[], Idle, doomed, {})),
          Disk(files, Some(Ids(ssts)), map[wal := []]), hist, [], I64_MIN)
  }

  /** Neither a transaction's step nor a crash. */
  predicate Bystander(l: Label) {
    !TxnLabel(l) && !l.CommitWrites? && !l.Crash?
  }

  /** A batch, frozen and flushed, and its log removed. */
  function Round(wal: nat, entries: seq<(Key, Option<Bytes>)>, rows: seq<Row>): seq<Label> {
    [WriteBatch(entries)] + [Freeze] + FlushLabels(wal, rows, true)
  }

  /** After the batch and the freeze. */
  function Frozen(s: State, v: Live, all: seq<Row>): State {
    s.(process := Up(v.(active := Table(v.active.id + 1, []), imms := [Table(v.active.id, all)],
                        nextSeq := v.nextSeq + |all|)),
       disk := s.disk.(wals := map[v.active.id := all, v.active.id + 1 := []]), hist := s.hist + all)
  }

  lemma WriteAndFreeze(s: State, v: Live, entries: seq<(Key, Option<Bytes>)>)
    requires entries != [] && s.process == Up(v) && v.imms == [] && v.active.rows == [] && v.writers == map[]
    requires s.disk.wals == map[v.active.id := []]
    ensures Steps(s, [WriteBatch(entries)] + [Freeze], Frozen(s, v, Numbered(entries, v.nextSeq)))
  {
    var all, wal := Numbered(entries, v.nextSeq), v.active.id;
    var s1 := Step(s, WriteBatch(entries));
    SeqAssoc(all, [], []);
    assert s1.process.live.active == Table(wal, all) && s1.disk.wals == map[wal := all];
    OneStep(s, WriteBatch(entries));
    OneStep(s1, Freeze);
    MoreSteps(s, [WriteBatch(entries)], s1, [Freeze], Step(s1, Freeze));
    assert map[wal := all][wal + 1 := []] == map[wal := all, wal + 1 := []];
    assert [] + [Table(wal, all)] == [Table(wal, all)];
  }

  lemma RoundRun(ssts: seq<Table>, wal: nat, nextSeq: nat, nextSst: nat, doomed: set<nat>, files: map<nat, seq<Row>>,
                 hist: seq<Row>, entries: seq<(Key, Option<Bytes>)>, rows: seq<Row>)
    requires entries != [] && Lists(rows, NewestMap(Numbered(entries, nextSeq)))
    ensures Steps(At(ssts, wal, nextSeq, nextSst, doomed, files, hist), Round(wal, entries, rows),
                  At(ssts + [Table(nextSst, rows)], wal + 1, nextSeq + |entries|, nextSst + 1, doomed,
                     files[nextSst := rows], hist + Numbered(entries, nextSeq)))
  {
    var s := At(ssts, wal, nextSeq, nextSst, doomed, files, hist);
    var all := Numbered(entries, nextSeq);
    var frozen := Frozen(s, s.process.live, all);
    WriteAndFreeze(s, s.process.live, entries);
    FrozenFlushes(frozen, frozen.process.live, wal, all, rows);
    FlushedAt(ssts, wal, nextSeq, nextSst, doomed, files, hist, all, rows);
    MoreSteps(s, [WriteBatch(entries)] + [Freeze], frozen, FlushLabels(wal, rows, true),
              Flushed(frozen, frozen.process.live, wal, rows, true));
  }

  lemma FrozenFlushes(s: State, v: Live, wal: nat, all: seq<Row>, rows: seq<Row>)
    requires s.process == Up(v) && v.job == Idle && v.imms == [Table(wal, all)] && Lists(rows, NewestMap(all))
    ensures Steps(s, FlushLabels(wal, rows, true), Flushed(s, v, wal, rows, true))
  {
    assert Table(wal, all) in v.imms;
    FlushRun(s, v, wal, rows, true);
  }

  lemma FlushedAt(ssts: seq<Table>, wal: nat, nextSeq: nat, nextSst: nat, doomed: set<nat>,
                  files: map<nat, seq<Row>>, hist: seq<Row>, all: seq<Row>, rows: seq<Row>)
    ensures var s := At(ssts, wal, nextSeq, nextSst, doomed, files, hist);
            var frozen := Frozen(s, s.process.live, all);
            Flushed(frozen, frozen.process.live, wal, rows, true)
            == At(ssts + [Table(nextSst, rows)], wal + 1, nextSeq + |all|, nextSst + 1, doomed, files[nextSst := rows],
                  hist + all)
  {
    WithoutCons(Table(wal, all), [], {wal});
    assert [Table(wal, all)] + [] == [Table(wal, all)];
    assert map[wal := all, wal + 1 := []] - {wal} == map[wal + 1 := []];
    assert {} + {wal} - {wal} == {};
  }

  lemma CompactionRun(ssts: seq<Table>, wal: nat, nextSeq: nat, nextSst: nat, doomed: set<nat>, files: map<nat, seq<Row>>,
                      hist: seq<Row>, w: int, rows: seq<Row>)
    requires rows != [] && Output(ssts, WINDOW, THRESHOLD, w, I64_MIN, Table(nextSst, rows))
    ensures Steps(At(ssts, wal, nextSeq, nextSst, doomed, files, hist),
                  CompactLabels(WINDOW, THRESHOLD, w, I64_MIN, rows),
                  At(Compacted(ssts, WINDOW, w, Table(nextSst, rows)), wal, nextSeq, nextSst + 1,
                     doomed + Ids(Group(ssts, WINDOW, w)), files[nextSst := rows], hist))
  {
    var s := At(ssts, wal, nextSeq, nextSst, doomed, files, hist);
    CompactRun(s, s.process.live, WINDOW, THRESHOLD, w, I64_MIN, rows);
  }

  lemma OneEntry(r: Row)
    ensures Numbered([(r.key, r.value)], r.seqNo) == [r] && Lists([r], NewestMap([r]))
  {
    SortedListing([r], [r]);
  }

  lemma TwoEntries(p: Row, r: Row)
    requires KeyLess(p.key, r.key) && r.seqNo == p.seqNo + 1
    ensures Numbered([(p.key, p.value), (r.key, r.value)], p.seqNo) == [p, r] && Lists([p, r], NewestMap([p, r]))
  {
    SortedListing([p, r], [p, r]);
  }

  lemma OpenedAt()
    ensures OPENED == At([], 0, 1, 0, {}, map[], [])
  {
    assert Ids([]) == {};
  }

  // ---------- A deleted value comes back ----------

  const FILES1: map<nat, seq<Row>> := map[0 := FLUSHED0.rows]
  const FILES2: map<nat, seq<Row>> := FILES1[1 := FLUSHED1.rows]
  const FILES3: map<nat, seq<Row>> := FILES2[2 := FLUSHED2.rows]

  lemma FirstParts(none: map<nat, seq<Row>>)
    requires none == map[]
    ensures [] + [FLUSHED0] == [FLUSHED0] && [] + [A, PUT] == [A, PUT] && none[0 := FLUSHED0.rows] == FILES1
  {
  }

  lemma FirstRound() returns (ls: seq<Label>)
    ensures Steps(OPENED, ls, At([FLUSHED0], 1, 3, 1, {}, FILES1, [A, PUT]))
  {
    var a := [(A.key, A.value), (PUT.key, PUT.value)];
    OpenedAt();
    TwoEntries(A, PUT);
    RoundRun([], 0, 1, 0, {}, map[], [], a, FLUSHED0.rows);
    FirstParts(map[]);
    ls := Round(0, a, FLUSHED0.rows);
  }

  lemma SecondRound() returns (ls: seq<Label>)
    ensures Steps(At([FLUSHED0], 1, 3, 1, {}, FILES1, [A, PUT]), ls,
                  At([FLUSHED0, FLUSHED1], 2, 4, 2, {}, FILES2, [A, PUT, DELETED]))
  {
    var b := [(DELETED.key, DELETED.value)];
    OneEntry(DELETED);
    RoundRun([FLUSHED0], 1, 3, 1, {}, FILES1, [A, PUT], b, FLUSHED1.rows);
    assert [FLUSHED0] + [FLUSHED1] == [FLUSHED0, FLUSHED1] && [A, PUT] + [DELETED] == [A, PUT, DELETED];
    ls := Round(1, b, FLUSHED1.rows);
  }

  lemma ThirdRound() returns (ls: seq<Label>)
    ensures Steps(At([FLUSHED0, FLUSHED1], 2, 4, 2, {}, FILES2, [A, PUT, DELETED]), ls,
                  At([FLUSHED0, FLUSHED1, FLUSHED2], 3, 5, 3, {}, FILES3, [A, PUT, DELETED, B]))
  {
    var c := [(B.key, B.value)];
    OneEntry(B);
    RoundRun([FLUSHED0, FLUSHED1], 2, 4, 2, {}, FILES2, [A, PUT, DELETED], c, FLUSHED2.rows);
    assert [FLUSHED0, FLUSHED1] + [FLUSHED2] == [FLUSHED0, FLUSHED1, FLUSHED2];
    assert [A, PUT, DELETED] + [B] == [A, PUT, DELETED, B];
    ls := Round(2, c, FLUSHED2.rows);
  }

  /** Three rounds: windows 0, 2 and 0. */
  lemma ThreeRounds() returns (ls: seq<Label>)
    ensures Steps(OPENED, ls, At([FLUSHED0, FLUSHED1, FLUSHED2], 3, 5, 3, {}, FILES3, [A, PUT, DELETED, B]))
  {
    var l1 := FirstRound();
    var l2 := SecondRound();
    var l3 := ThirdRound();
    var s1, s2, s3 := At([FLUSHED0], 1, 3, 1, {}, FILES1, [A, PUT]),
                      At([FLUSHED0, FLUSHED1], 2, 4, 2, {}, FILES2, [A, PUT, DELETED]),
                      At([FLUSHED0, FLUSHED1, FLUSHED2], 3, 5, 3, {}, FILES3, [A, PUT, DELETED, B]);
    MoreSteps(OPENED, l1, s1, l2, s2);
    MoreSteps(OPENED, l1 + l2, s2, l3, s3);
    ls := l1 + l2 + l3;
  }

  /** The state after the first compaction: the first window's table is now the newest. */
  function AfterFirst(): State {
    At([FLUSHED1, MERGED3], 3, 5, 4, {} + Ids(Group([FLUSHED0, FLUSHED1, FLUSHED2], WINDOW, 0)),
       FILES3[3 := MERGED3.rows], [A, PUT, DELETED, B])
  }

  lemma FirstCompaction()
    ensures Steps(At([FLUSHED0, FLUSHED1, FLUSHED2], 3, 5, 3, {}, FILES3, [A, PUT, DELETED, B]),
                  CompactLabels(WINDOW, THRESHOLD, 0, I64_MIN, MERGED3.rows), AfterFirst())
  {
    FirstMerge();
    CompactionRun([FLUSHED0, FLUSHED1, FLUSHED2], 3, 5, 3, {}, FILES3, [A, PUT, DELETED, B], 0, MERGED3.rows);
  }

  /** One more round in window 2, and the second compaction. */
  lemma SecondCompaction(doomed: set<nat>, files: map<nat, seq<Row>>, hist: seq<Row>) returns (ls: seq<Label>, s: State)
    ensures Steps(At([FLUSHED1, MERGED3], 3, 5, 4, doomed, files, hist), ls, s)
    ensures s.process.Up? && Sources(s.process.live) == [Table(4, []), MERGED5, MERGED3]
  {
    OneEntry(C);
    SecondMerge();
    var c := [(C.key, C.value)];
    var files' := files[4 := FLUSHED4.rows];
    var s1 := At([FLUSHED1, MERGED3, FLUSHED4], 4, 6, 5, doomed, files', hist + [C]);
    s := At([MERGED3, MERGED5], 4, 6, 6, doomed + Ids(Group([FLUSHED1, MERGED3, FLUSHED4], WINDOW, 2)),
            files'[5 := MERGED5.rows], hist + [C]);
    RoundRun([FLUSHED1, MERGED3], 3, 5, 4, doomed, files, hist, c, FLUSHED4.rows);
    assert [FLUSHED1, MERGED3] + [FLUSHED4] == [FLUSHED1, MERGED3, FLUSHED4];
    CompactionRun([FLUSHED1, MERGED3, FLUSHED4], 4, 6, 5, doomed, files', hist + [C], 2, MERGED5.rows);
    ls := Round(3, c, FLUSHED4.rows) + CompactLabels(WINDOW, THRESHOLD, 2, I64_MIN, MERGED5.rows);
    MoreSteps(At([FLUSHED1, MERGED3], 3, 5, 4, doomed, files, hist), Round(3, c, FLUSHED4.rows), s1,
              CompactLabels(WINDOW, THRESHOLD, 2, I64_MIN, MERGED5.rows), s);
    Pairs(MERGED3, MERGED5);
    assert [Table(4, [])] + [] + [MERGED5, MERGED3] == [Table(4, []), MERGED5, MERGED3];
  }

  /**
   A run from the first open - three flushes, a compaction, a flush and a compaction, with every log and manifest write -
   after which `get`'s loop answers with a value that was deleted, although the region still has the deletion.
   */
  lemma GetMayResurrect() returns (ls: seq<Label>)
    ensures Runs(INITIAL, ls) && Run(INITIAL, ls).process.Up?
    ensures var v := Run(INITIAL, ls).process.live;
            && VisitAll(Sources(v), K) == Some(PUT)
            && K in Visible(v) && Visible(v)[K] == DELETED
  {
    FirstOpen();
    var l1 := ThreeRounds();
    FirstCompaction();
    var l3, s := SecondCompaction({} + Ids(Group([FLUSHED0, FLUSHED1, FLUSHED2], WINDOW, 0)), FILES3[3 := MERGED3.rows],
                                  [A, PUT, DELETED, B]);
    var l2 := CompactLabels(WINDOW, THRESHOLD, 0, I64_MIN, MERGED3.rows);
    var s1 := At([FLUSHED0, FLUSHED1, FLUSHED2], 3, 5, 3, {}, FILES3, [A, PUT, DELETED, B]);
    MoreSteps(INITIAL, FIRST_OPEN, OPENED, l1, s1);
    MoreSteps(INITIAL, FIRST_OPEN + l1, s1, l2, AfterFirst());
    MoreSteps(INITIAL, FIRST_OPEN + l1 + l2, AfterFirst(), l3, s);
    ls := FIRST_OPEN + l1 + l2 + l3;
    VisitLast(Table(4, []));
    NewestLast(Table(4, []));
  }

  // ---------- A number comes back ----------

  const LATE := Row(Key([], 201), 1, Some([2]))

  /** `A` is flushed alone, and a compaction finds it expired. */
  const ALONE := Table(0, [A])
  const FILE0: map<nat, seq<Row>> := map[0 := [A]]
  const CUTOFF: I64 := 100

  /** A running region without tables. */
  function Bare(nextSeq: nat, nextSst: nat, doomed: set<nat>, files: map<nat, seq<Row>>, wals: map<nat, seq<Row>>): State {
    State(Up(Live(Table(1, []), [], [], nextSeq, nextSst, map[], map[], Idle, doomed, {})),
          Disk(files, Some({}), wals), [A], [], CUTOFF)
  }

  lemma AloneGroup(w: int)
    ensures Group([ALONE], WINDOW, w) == if w == 0 then [ALONE] else []
  {
    MinTsCons(A, []);
    assert [A] + [] == [A];
    GroupCons(ALONE, [], w);
    assert [ALONE] + [] == [ALONE];
  }

  lemma NothingLeft()
    ensures Unexpired(RowsOf([ALONE]), CUTOFF) == [] && Lists([], NewestMap([]))
  {
    assert [ALONE][1..] == [] && [A][1..] == [];
    assert RowsOf([ALONE]) == [A] + [] == [A];
  }

  lemma DropAlone()
    ensures Steps(At([ALONE], 1, 2, 1, {}, FILE0, [A]), CompactLabels(WINDOW, 1, 0, CUTOFF, []),
                  Bare(2, 1, {0}, FILE0, map[1 := []]))
  {
    var s := At([ALONE], 1, 2, 1, {}, FILE0, [A]);
    forall w ensures Group([ALONE], WINDOW, w) == (if w == 0 then [ALONE] else []) { AloneGroup(w); }
    NothingLeft();
    CompactRun(s, s.process.live, WINDOW, 1, 0, CUTOFF, []);
    WithoutCons(ALONE, [], {0});
    assert [ALONE] + [] == [ALONE];
    assert Ids([ALONE]) == {0} && Ids([]) == {} && {} + {0} == {0};
  }

  lemma RemoveAndCrash()
    ensures Steps(Bare(2, 1, {0}, FILE0, map[1 := []]), [RemoveSst(0)] + [Crash],
                  Bare(2, 1, {}, map[], map[1 := []]).(process := Down))
  {
    var s, s1 := Bare(2, 1, {0}, FILE0, map[1 := []]), Bare(2, 1, {}, map[], map[1 := []]);
    assert FILE0 - {0} == map[] && s.process.live.doomedSsts - {0} == {};
    OneStep(s, RemoveSst(0));
    OneStep(s1, Crash);
    MoreSteps(s, [RemoveSst(0)], s1, [Crash], s1.(process := Down));
  }

  const BOTH_LOGS: map<nat, seq<Row>> := map[0 := [], 1 := []]

  /** In the middle of opening: log 1 is the active one, and log 0 was created by the open itself. */
  function Bringing(orphans: set<nat>, current: Option<nat>): State {
    State(Opening(Recovery([], false, Table(1, []), orphans, current, map[])), Disk(map[], Some({}), BOTH_LOGS), [A], [],
          CUTOFF)
  }

  lemma StartBare(s: State)
    requires s == Bare(2, 1, {}, map[], map[1 := []]).(process := Down)
    ensures Steps(s, [OpenStart(1, [])], Bringing({0}, None))
  {
    assert WalsAtOpen(s.disk) == BOTH_LOGS && BOTH_LOGS.Keys - {1} == {0};
    assert Loaded(s.disk) == {} == Ids([]);
    OneStep(s, OpenStart(1, []));
  }

  lemma SkipLog()
    ensures Steps(Bringing({0}, None), [OrphanLoad(0)] + [OrphanDone(false)], Bringing({}, None))
  {
    assert BOTH_LOGS[0] == [] && NewestMap([]) == map[];
    var one: set<nat> := {0};
    assert one - {0} == {};
    OneStep(Bringing({0}, None), OrphanLoad(0));
    assert Step(Bringing({0}, None), OrphanLoad(0)) == Bringing({}, Some(0));
    OneStep(Bringing({}, Some(0)), OrphanDone(false));
    MoreSteps(Bringing({0}, None), [OrphanLoad(0)], Bringing({}, Some(0)), [OrphanDone(false)], Bringing({}, None));
  }

  lemma FinishBare()
    ensures Steps(Bringing({}, None), [OpenDone], Bare(1, 0, {}, map[], BOTH_LOGS))
  {
    OneStep(Bringing({}, None), OpenDone);
  }

  /** The file goes, the region crashes and comes up again with nothing on disk: it starts numbering at one again. */
  lemma ReopenEmpty() returns (ls: seq<Label>)
    ensures Steps(Bare(2, 1, {0}, FILE0, map[1 := []]), ls, Bare(1, 0, {}, map[], BOTH_LOGS))
  {
    var s0, s1 := Bare(2, 1, {0}, FILE0, map[1 := []]), Bare(2, 1, {}, map[], map[1 := []]).(process := Down);
    RemoveAndCrash();
    StartBare(s1);
    SkipLog();
    FinishBare();
    var l1, l3 := [RemoveSst(0)] + [Crash], [OrphanLoad(0)] + [OrphanDone(false)];
    MoreSteps(s0, l1, s1, [OpenStart(1, [])], Bringing({0}, None));
    MoreSteps(s0, l1 + [OpenStart(1, [])], Bringing({0}, None), l3, Bringing({}, None));
    MoreSteps(s0, l1 + [OpenStart(1, [])] + l3, Bringing({}, None), [OpenDone], Bare(1, 0, {}, map[], BOTH_LOGS));
    ls := l1 + [OpenStart(1, [])] + l3 + [OpenDone];
  }

  lemma RoundBystands(wal: nat, entries: seq<(Key, Option<Bytes>)>, rows: seq<Row>)
    ensures forall l | l in Round(wal, entries, rows) :: Bystander(l)
  {
  }

  lemma AloneRound() returns (ls: seq<Label>)
    ensures Steps(OPENED, ls, At([ALONE], 1, 2, 1, {}, FILE0, [A])) && forall l | l in ls :: Bystander(l)
  {
    var none: map<nat, seq<Row>> := map[];
    OpenedAt();
    OneEntry(A);
    RoundBystands(0, [(A.key, A.value)], [A]);
    ls := Round(0, [(A.key, A.value)], [A]);
    RoundRun([], 0, 1, 0, {}, none, [], [(A.key, A.value)], [A]);
    assert none[0 := [A]] == FILE0 && [] + [ALONE] == [ALONE] && [] + [A] == [A];
  }

  lemma LateWrite() returns (s: State)
    ensures Steps(Bare(1, 0, {}, map[], BOTH_LOGS), [WriteBatch([(LATE.key, LATE.value)])], s) && s.hist == [A, LATE]
  {
    var s0, l := Bare(1, 0, {}, map[], BOTH_LOGS), WriteBatch([(LATE.key, LATE.value)]);
    OneEntry(LATE);
    OneStep(s0, l);
    s := Step(s0, l);
    assert s.hist == [A] + [LATE];
  }

  /**
   Expiry lets numbers come back: once the rows that had them are dropped and the region has been reopened, a new row of
   another key gets the same number. So of rows that have expired a number says nothing.
   */
  lemma NumbersMayRepeat() returns (ls: seq<Label>)
    ensures Runs(INITIAL, ls) && A in Run(INITIAL, ls).hist && LATE in Run(INITIAL, ls).hist
    ensures A != LATE && A.seqNo == LATE.seqNo
  {
    FirstOpen();
    DropAlone();
    var l1 := AloneRound();
    var l3 := ReopenEmpty();
    var s := LateWrite();
    var l2, l4 := CompactLabels(WINDOW, 1, 0, CUTOFF, []), [WriteBatch([(LATE.key, LATE.value)])];
    var s1, s2, s3 := At([ALONE], 1, 2, 1, {}, FILE0, [A]), Bare(2, 1, {0}, FILE0, map[1 := []]),
                      Bare(1, 0, {}, map[], BOTH_LOGS);
    MoreSteps(INITIAL, FIRST_OPEN, OPENED, l1, s1);
    MoreSteps(INITIAL, FIRST_OPEN + l1, s1, l2, s2);
    MoreSteps(INITIAL, FIRST_OPEN + l1 + l2, s2, l3, s3);
    MoreSteps(INITIAL, FIRST_OPEN + l1 + l2 + l3, s3, l4, s);
    ls := FIRST_OPEN + l1 + l2 + l3 + l4;
  }

  // ---------- A conflict is missed ----------

  function WithTxns(s: State, txns: map<nat, Txn>): State
    requires s.process.Up?
  {
    s.(process := Up(s.process.live.(txns := txns)))
  }

  lemma SameEnabled(s: State, l: Label, txns: map<nat, Txn>)
    requires s.process.Up? && Enabled(s, l) && Bystander(l)
    ensures Enabled(WithTxns(s, txns), l)
  {
    assert Sources(WithTxns(s, txns).process.live) == Sources(s.process.live);
  }

  lemma SameFlushStep(s: State, l: Label, txns: map<nat, Txn>)
    requires s.process.Up? && Enabled(s, l) && Enabled(WithTxns(s, txns), l) && FlushLabel(l)
    ensures Step(s, l).process.Up? && Step(WithTxns(s, txns), l) == WithTxns(Step(s, l), txns)
  {
  }

  lemma SameCompactStep(s: State, l: Label, txns: map<nat, Txn>)
    requires s.process.Up? && Enabled(s, l) && Enabled(WithTxns(s, txns), l) && CompactLabel(l)
    ensures Step(s, l).process.Up? && Step(WithTxns(s, txns), l) == WithTxns(Step(s, l), txns)
  {
  }

  /** A step that neither concerns a transaction nor crashes is the same whatever transactions are open. */
  lemma SameStep(s: State, l: Label, txns: map<nat, Txn>)
    requires s.process.Up? && Enabled(s, l) && Bystander(l)
    ensures Enabled(WithTxns(s, txns), l) && Step(s, l).process.Up?
    ensures Step(WithTxns(s, txns), l) == WithTxns(Step(s, l), txns)
  {
    SameEnabled(s, l, txns);
    if FlushLabel(l) {
      SameFlushStep(s, l, txns);
    } else if CompactLabel(l) {
      SameCompactStep(s, l, txns);
    }
  }

  lemma {:induction false} SameRun(s: State, ls: seq<Label>, s': State, txns: map<nat, Txn>)
    requires s.process.Up? && Steps(s, ls, s') && forall l | l in ls :: Bystander(l)
    ensures s'.process.Up? && Steps(WithTxns(s, txns), ls, WithTxns(s', txns))
    decreases |ls|
  {
    if ls != [] {
      SameStep(s, ls[0], txns);
      SameRun(Step(s, ls[0]), ls[1..], s', txns);
    }
  }

  const MINE: Txn := Txn(1, map[], map[A.key := Some([9])])
  const BEGIN: Label := Begin(0, [[]])
  const OVERWRITE: Label := TxnWrite(0, A.key, Some([9]))
  const COMMIT: Label := CommitWrites(0, [A.key])

  lemma BeginEmpty()
    ensures Steps(OPENED, [BEGIN], WithTxns(OPENED, map[0 := Txn(1, map[], map[])]))
  {
    assert Sources(OPENED.process.live) == [Table(0, [])];
    FlattenSingle<Row>([]);
    OneStep(OPENED, BEGIN);
  }

  lemma OverwriteMine(s: State)
    requires s.process.Up?
    ensures Steps(WithTxns(s, map[0 := Txn(1, map[], map[])]), [OVERWRITE], WithTxns(s, map[0 := MINE]))
  {
    var none: map<Key, Option<Bytes>> := map[];
    assert none[A.key := Some([9])] == MINE.writes;
    assert map[0 := Txn(1, map[], map[])][0 := MINE] == map[0 := MINE];
    OneStep(WithTxns(s, map[0 := Txn(1, map[], map[])]), OVERWRITE);
  }

  lemma BeginAndOverwrite()
    ensures Steps(OPENED, [BEGIN] + [OVERWRITE], WithTxns(OPENED, map[0 := MINE]))
  {
    BeginEmpty();
    OverwriteMine(OPENED);
    MoreSteps(OPENED, [BEGIN], WithTxns(OPENED, map[0 := Txn(1, map[], map[])]), [OVERWRITE],
              WithTxns(OPENED, map[0 := MINE]));
  }

  /** Meanwhile `A` is written, flushed and dropped. */
  lemma WriteAndDrop() returns (ls: seq<Label>)
    ensures Steps(WithTxns(OPENED, map[0 := MINE]), ls,
                  WithTxns(Bare(2, 1, {0}, FILE0, map[1 := []]), map[0 := MINE]))
  {
    var s1, s2 := At([ALONE], 1, 2, 1, {}, FILE0, [A]), Bare(2, 1, {0}, FILE0, map[1 := []]);
    var drop := CompactLabels(WINDOW, 1, 0, CUTOFF, []);
    var round := AloneRound();
    DropAlone();
    CompactLabelsOk(WINDOW, 1, 0, CUTOFF, []);
    SameRun(OPENED, round, s1, map[0 := MINE]);
    SameRun(s1, drop, s2, map[0 := MINE]);
    MoreSteps(WithTxns(OPENED, map[0 := MINE]), round, WithTxns(s1, map[0 := MINE]), drop,
              WithTxns(s2, map[0 := MINE]));
    ls := round + drop;
  }

  lemma NothingConflicts() returns (s: State)
    ensures Steps(WithTxns(Bare(2, 1, {0}, FILE0, map[1 := []]), map[0 := MINE]), [COMMIT], s)
    ensures s.hist == [A, Row(A.key, 2, Some([9]))] && s.commits == [Machine.Commit(MINE, 2, 1)]
  {
    var s0 := WithTxns(Bare(2, 1, {0}, FILE0, map[1 := []]), map[0 := MINE]);
    var v := s0.process.live;
    assert A.key in MINE.writes;
    assert Sources(v) == [Table(1, [])] && RowsOf([Table(1, [])]) == [] + [];
    CommitRun(s0, v, 0, MINE, [A.key]);
    s := Committed(s0, v, 0, MINE, [A.key]);
    assert Numbered(Entries([A.key], MINE.writes), 2) == [Row(A.key, 2, Some([9]))];
  }

  /**
   Expiry hides a conflict: a transaction begins, `A` is written and committed by someone else, flushed, found expired and
   dropped; the transaction then overwrites `A`'s key and its commit goes through.
   */
  lemma ExpiryHidesConflict() returns (ls: seq<Label>)
    ensures Runs(INITIAL, ls)
    ensures var s := Run(INITIAL, ls);
            && A in s.hist && |s.commits| == 1 && A.key in s.commits[0].txn.writes
            && s.commits[0].txn.snapshot <= A.seqNo < s.commits[0].start
  {
    var s0, s2 := WithTxns(OPENED, map[0 := MINE]), WithTxns(Bare(2, 1, {0}, FILE0, map[1 := []]), map[0 := MINE]);
    FirstOpen();
    BeginAndOverwrite();
    var dropped := WriteAndDrop();
    var s := NothingConflicts();
    var l0 := [BEGIN] + [OVERWRITE];
    MoreSteps(INITIAL, FIRST_OPEN, OPENED, l0, s0);
    MoreSteps(INITIAL, FIRST_OPEN + l0, s0, dropped, s2);
    MoreSteps(INITIAL, FIRST_OPEN + l0 + dropped, s2, [COMMIT], s);
    ls := FIRST_OPEN + l0 + dropped + [COMMIT];
  }
}
