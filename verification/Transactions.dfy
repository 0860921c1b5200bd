/**
 What transactions promise, over every interleaving (src/memtable/transaction.rs), of every key that no cutoff used has
 passed: a dropped row is one that a conflict check may need.
 */
module Transactions {
  import opened Rows
  import opened Machine
  import opened Invariant
  import opened WriterSteps
  import opened Safety

  // ---------- Reads ----------

  /** `Transaction::get`: the write buffer over the snapshot's index. */
  function TxnGet(t: Txn, k: Key): Option<Bytes> {
    if k in t.writes then t.writes[k]
    else if k in t.index then t.index[k].value
    else None
  }

  function ValueIn(m: map<Key, Row>, k: Key): Option<Bytes> {
    if k in m then m[k].value else None
  }

  /** Of the key's rows numbered below `n` the one with the highest number has the value `x`. */
  ghost predicate HadValue(hist: seq<Row>, n: nat, k: Key, x: Bytes) {
    exists r :: r in hist && r.key == k && r.seqNo < n && r.value == Some(x)
                && forall q | q in hist && q.key == k && q.seqNo < n :: q.seqNo <= r.seqNo
  }

  /** A row below `n` that no other row of its key below `n` exceeds is the entry of the map below `n`. */
  lemma BelowEntry(hist: seq<Row>, floor: I64, n: nat, r: Row)
    requires Consistent(RowSet(hist), floor) && !Expired(r.key, floor) && r in hist && r.seqNo < n
    requires forall q | q in hist && q.key == r.key && q.seqNo < n :: q.seqNo <= r.seqNo
    ensures r.key in NewestMap(Below(hist, n)) && NewestMap(Below(hist, n))[r.key] == r
  {
    var below := Below(hist, n);
    BelowMembers(hist, n);
    NewestIsLargest(below, r);
    NewestMapMeaning(below, r.key);
    SameNumber(hist, floor, NewestMap(below)[r.key], r);
  }

  lemma SameNumber(hist: seq<Row>, floor: I64, p: Row, q: Row)
    requires Consistent(RowSet(hist), floor) && p in hist && q in hist && !Expired(p.key, floor) && !Expired(q.key, floor)
    ensures p.seqNo == q.seqNo ==> p == q
  {
    assert p in RowSet(hist) && q in RowSet(hist);
  }

  lemma EntryBelow(hist: seq<Row>, n: nat, k: Key)
    requires k in NewestMap(Below(hist, n))
    ensures var r := NewestMap(Below(hist, n))[k];
            && r in hist && r.key == k && r.seqNo < n
            && forall q | q in hist && q.key == k && q.seqNo < n :: q.seqNo <= r.seqNo
  {
    var below := Below(hist, n);
    BelowMembers(hist, n);
    NewestMapMeaning(below, k);
    forall q | q in hist && q.key == k && q.seqNo < n ensures q.seqNo <= NewestMap(below)[k].seqNo {
      NewestIsLargest(below, q);
    }
  }

  lemma HadValueIff(hist: seq<Row>, floor: I64, n: nat, k: Key, x: Bytes)
    requires Consistent(RowSet(hist), floor) && !Expired(k, floor)
    ensures HadValue(hist, n, k, x) <==> ValueIn(NewestMap(Below(hist, n)), k) == Some(x)
  {
    if k in NewestMap(Below(hist, n)) { EntryBelow(hist, n, k); }
    if r :| r in hist && r.key == k && r.seqNo < n && r.value == Some(x)
            && forall q | q in hist && q.key == k && q.seqNo < n :: q.seqNo <= r.seqNo {
      BelowEntry(hist, floor, n, r);
    }
  }

  /**
   At `begin` no number below the snapshot is still on its way: the index is the whole visible map, and with it the history,
   as far as that has not expired.
   */
  lemma BeginSeesEverything(s: State, t: nat, sources: seq<seq<Row>>)
    requires Reachable(s) && Enabled(s, Begin(t, sources)) && s.process.Up?
    ensures var txn := Step(s, Begin(t, sources)).process.live.txns[t];
            && View(txn.index, s.floor) == View(Visible(s.process.live), s.floor) == View(NewestMap(s.hist), s.floor)
            && (s.floor == I64_MIN ==> txn.index == Visible(s.process.live))
            && forall r | r in s.hist && !Expired(r.key, s.floor) :: r.seqNo < txn.snapshot
  {
    ReachableOk(s);
    VisibleIsHistory(s);
    SnapshotComplete(s.hist, s.commits, s.floor, s.disk, s.process.live, sources);
  }

  /**
   In every later state a read of a key that has not expired gives what the transaction's buffer has for it, or else what
   the newest version below its snapshot has; see `OwnLastWrite` for the buffer.
   */
  lemma ReadsAreStable(s: State, t: nat, k: Key)
    requires Reachable(s) && s.process.Up? && t in s.process.live.txns && !Expired(k, s.floor)
    ensures var txn := s.process.live.txns[t];
            forall x :: TxnGet(txn, k) == Some(x) <==>
              if k in txn.writes then txn.writes[k] == Some(x) else HadValue(s.hist, txn.snapshot, k, x)
    ensures var txn := s.process.live.txns[t];
            TxnGet(txn, k) == if k in txn.writes then txn.writes[k] else ValueIn(NewestMap(Below(s.hist, txn.snapshot)), k)
    ensures forall w | w in s.process.live.writers :: s.process.live.txns[t].snapshot <= w
  {
    ReachableOk(s);
    var txn := s.process.live.txns[t];
    IndexEntry(s.hist, s.floor, txn, k);
    forall x
      ensures TxnGet(txn, k) == Some(x) <==>
                if k in txn.writes then txn.writes[k] == Some(x) else HadValue(s.hist, txn.snapshot, k, x)
    {
      HadValueIff(s.hist, s.floor, txn.snapshot, k, x);
    }
  }

  /** What a write does: the transaction reads it, and nothing else anywhere has changed. */
  lemma WriteIsRead(s: State, t: nat, k: Key, v: Option<Bytes>)
    requires s.process.Up? && Enabled(s, TxnWrite(t, k, v))
    ensures var s' := Step(s, TxnWrite(t, k, v));
            && s'.process.Up? && s'.process.live.txns.Keys == s.process.live.txns.Keys
            && s == s'.(process := Up(s'.process.live.(txns := s.process.live.txns)))
            && (forall u | u in s.process.live.txns && u != t :: s'.process.live.txns[u] == s.process.live.txns[u])
    ensures var was, txn := s.process.live.txns[t], Step(s, TxnWrite(t, k, v)).process.live.txns[t];
            && txn.snapshot == was.snapshot && txn.index == was.index && txn.writes.Keys == was.writes.Keys + {k}
            && TxnGet(txn, k) == v && forall j | j != k :: TxnGet(txn, j) == TxnGet(was, j)
  {
  }

  predicate WritesTo(l: Label, t: nat, k: Key) {
    l.TxnWrite? && l.txn == t && l.key == k
  }

  /** What was there before, overwritten by each write in turn. */
  ghost function Buffered(was: Option<Bytes>, ls: seq<Label>, t: nat, k: Key): Option<Bytes>
    decreases ls
  {
    if ls == [] then was else Buffered(if WritesTo(ls[0], t, k) then ls[0].value else was, ls[1..], t, k)
  }

  lemma {:induction false} BufferedMeans(was: Option<Bytes>, ls: seq<Label>, t: nat, k: Key)
    ensures (forall l | l in ls :: !WritesTo(l, t, k)) ==> Buffered(was, ls, t, k) == was
    ensures forall i | 0 <= i < |ls| && WritesTo(ls[i], t, k) && (forall j | i < j < |ls| :: !WritesTo(ls[j], t, k)) ::
              Buffered(was, ls, t, k) == ls[i].value
    decreases ls
  {
    if ls != [] {
      var now, rest := if WritesTo(ls[0], t, k) then ls[0].value else was, ls[1..];
      BufferedMeans(now, rest, t, k);
      assert forall i | 0 < i < |ls| :: ls[i] == rest[i - 1];
      assert forall l | l in rest :: l in ls;
      forall i | 0 <= i < |ls| && WritesTo(ls[i], t, k) && (forall j | i < j < |ls| :: !WritesTo(ls[j], t, k))
        ensures Buffered(was, ls, t, k) == ls[i].value
      {
        if i > 0 { assert WritesTo(rest[i - 1], t, k); }
      }
    }
  }

  /** One step of anyone: only the transaction's own write of the key changes what it reads of it. */
  lemma ReadAfter(s: State, l: Label, t: nat, k: Key)
    requires s.process.Up? && t in s.process.live.txns && Enabled(s, l)
    requires !l.Crash? && !(l.Begin? && l.txn == t) && !Ends(l, t)
    ensures Step(s, l).process.Up? && t in Step(s, l).process.live.txns
    ensures var was, txn := s.process.live.txns[t], Step(s, l).process.live.txns[t];
            && txn.snapshot == was.snapshot && txn.index == was.index
            && TxnGet(txn, k) == if WritesTo(l, t, k) then l.value else TxnGet(was, k)
  {
  }

  lemma {:induction false} ReadAfterAll(s: State, ls: seq<Label>, t: nat, k: Key)
    requires Runs(s, ls) && s.process.Up? && t in s.process.live.txns
    requires forall l | l in ls :: !l.Crash? && !(l.Begin? && l.txn == t) && !Ends(l, t)
    ensures Run(s, ls).process.Up? && t in Run(s, ls).process.live.txns
    ensures var was, txn := s.process.live.txns[t], Run(s, ls).process.live.txns[t];
            && txn.snapshot == was.snapshot && txn.index == was.index
            && TxnGet(txn, k) == Buffered(TxnGet(was, k), ls, t, k)
    decreases ls
  {
    if ls != [] {
      assert ls[0] in ls;
      ReadAfter(s, ls[0], t, k);
      ReadAfterAll(Step(s, ls[0]), ls[1..], t, k);
    }
  }

  /** While a transaction is open, what it reads of a key is the last value that it wrote, if it wrote any since. */
  lemma OwnLastWrite(s: State, ls: seq<Label>, t: nat, k: Key)
    requires Runs(s, ls) && s.process.Up? && t in s.process.live.txns
    requires forall l | l in ls :: !l.Crash? && !(l.Begin? && l.txn == t) && !Ends(l, t)
    ensures Run(s, ls).process.Up? && t in Run(s, ls).process.live.txns
    ensures (forall l | l in ls :: !WritesTo(l, t, k)) ==>
              TxnGet(Run(s, ls).process.live.txns[t], k) == TxnGet(s.process.live.txns[t], k)
    ensures forall i | 0 <= i < |ls| && WritesTo(ls[i], t, k) && (forall j | i < j < |ls| :: !WritesTo(ls[j], t, k)) ::
              TxnGet(Run(s, ls).process.live.txns[t], k) == ls[i].value
  {
    ReadAfterAll(s, ls, t, k);
    BufferedMeans(TxnGet(s.process.live.txns[t], k), ls, t, k);
  }

  /** Nothing that runs later changes an open transaction's view, except its own writes and its end. */
  lemma {:induction false} ViewsArePrivate(s: State, ls: seq<Label>, t: nat)
    requires Runs(s, ls) && s.process.Up? && t in s.process.live.txns
    requires forall l | l in ls :: !l.Crash? && !(l.TxnWrite? && l.txn == t)
                                && !(l.Begin? && l.txn == t) && !Ends(l, t)
    ensures Run(s, ls).process.Up? && t in Run(s, ls).process.live.txns
    ensures Run(s, ls).process.live.txns[t] == s.process.live.txns[t]
    decreases ls
  {
    if ls != [] {
      assert ls[0] in ls;
      ViewsArePrivate(Step(s, ls[0]), ls[1..], t);
    }
  }

  predicate Ends(l: Label, t: nat) {
    (l.CommitWrites? || l.CommitConflict? || l.CommitNothing? || l.Drop?) && l.txn == t
  }

  /** An end removes the transaction and no other; only a commit with writes changes anything else. */
  lemma EndedIsGone(s: State, l: Label, t: nat)
    requires s.process.Up? && Enabled(s, l) && Ends(l, t)
    ensures Step(s, l).process.Up? && Step(s, l).process.live.txns == s.process.live.txns - {t}
    ensures !l.CommitWrites? ==>
              Step(s, l) == s.(process := Up(s.process.live.(txns := s.process.live.txns - {t})))
  {
  }

  // ---------- First committer wins ----------

  /** The snapshot's version of `k` is still the newest one. */
  predicate Current(v: Live, t: Txn, k: Key) {
    if k in t.index then k in Visible(v) && Visible(v)[k] == t.index[k] else k !in Visible(v)
  }

  /** A key that has not expired conflicts exactly when it is no longer at its snapshot version. */
  lemma OverwrittenIff(s: State, t: nat, k: Key)
    requires Reachable(s) && s.process.Up? && t in s.process.live.txns && !Expired(k, s.floor)
    ensures var v := s.process.live;
            !Current(v, v.txns[t], k) <==> k in Visible(v) && Visible(v)[k].seqNo >= v.txns[t].snapshot
  {
    ReachableOk(s);
    VisibleIsHistory(s);
    var v := s.process.live;
    var n := v.txns[t].snapshot;
    SameViewNewest(RowsOf(Sources(v)), s.hist, s.floor, k);
    assert Newest(RowsOf(Sources(v)), k) == Newest(s.hist, k);
    IndexEntry(s.hist, s.floor, v.txns[t], k);
    NewestBelow(s.hist, n, k);
  }

  /** `commit` reports a conflict exactly when some written key is no longer at its snapshot version. */
  lemma ConflictIffOverwritten(s: State, t: nat)
    requires Reachable(s) && s.process.Up? && t in s.process.live.txns
    requires forall k | k in s.process.live.txns[t].writes :: !Expired(k, s.floor)
    ensures var v := s.process.live;
            Conflicts(v, v.txns[t]) <==> exists k :: k in v.txns[t].writes && !Current(v, v.txns[t], k)
  {
    var v := s.process.live;
    forall k | k in v.txns[t].writes
      ensures !Current(v, v.txns[t], k) <==> k in Visible(v) && Visible(v)[k].seqNo >= v.txns[t].snapshot
    {
      OverwrittenIff(s, t, k);
    }
  }

  lemma {:induction false} BelowMembers(rows: seq<Row>, n: nat)
    ensures forall r :: r in Below(rows, n) <==> r in rows && r.seqNo < n
  {
    if rows != [] {
      BelowMembers(rows[..|rows| - 1], n);
      assert rows == rows[..|rows| - 1] + [rows[|rows| - 1]];
    }
  }

  /** A key's newest version is below `n` exactly when the map below `n` already has it. */
  lemma NewestBelow(hist: seq<Row>, n: nat, k: Key)
    ensures k in NewestMap(hist) && NewestMap(hist)[k].seqNo < n ==> Newest(Below(hist, n), k) == Newest(hist, k)
    ensures k in NewestMap(Below(hist, n)) ==> k in NewestMap(hist) && NewestMap(Below(hist, n))[k].seqNo < n
  {
    BelowMembers(hist, n);
    if k in NewestMap(hist) && NewestMap(hist)[k].seqNo < n {
      forall r | r in hist && r.key == k ensures r.seqNo < n { NewestIsLargest(hist, r); }
      BelowKey(hist, n, k);
    }
    if k in NewestMap(Below(hist, n)) {
      NewestMapMeaning(Below(hist, n), k);
      NewestIsLargest(hist, NewestMap(Below(hist, n))[k]);
    }
  }

  /** Whatever compaction has dropped, a written key that has not expired conflicts if its newest version is too new. */
  lemma ConflictIsFound(s: State, t: nat, k: Key)
    requires Reachable(s) && s.process.Up? && t in s.process.live.txns
    requires k in s.process.live.txns[t].writes && !Expired(k, s.floor) && k in NewestMap(s.hist)
    requires NewestMap(s.hist)[k].seqNo >= s.process.live.txns[t].snapshot
    ensures Conflicts(s.process.live, s.process.live.txns[t])
  {
    VisibleIsHistory(s);
    SameViewNewest(RowsOf(Sources(s.process.live)), s.hist, s.floor, k);
    assert Newest(s.hist, k).Some?;
  }

  /** And a conflict is only reported for a row that is. */
  lemma ConflictIsReal(s: State, t: nat) returns (r: Row)
    requires Reachable(s) && s.process.Up? && t in s.process.live.txns
    requires Conflicts(s.process.live, s.process.live.txns[t])
    ensures r in s.hist && r.key in s.process.live.txns[t].writes && r.seqNo >= s.process.live.txns[t].snapshot
  {
    ReachableOk(s);
    var v := s.process.live;
    var rows := RowsOf(Sources(v));
    var k :| k in v.txns[t].writes && k in NewestMap(rows) && NewestMap(rows)[k].seqNo >= v.txns[t].snapshot;
    NewestMapMeaning(rows, k);
    r := NewestMap(rows)[k];
    SourceRowIsHistory(s.hist, s.commits, s.floor, s.disk, v, r);
  }

  /** Rows from place `at` on: one for every key written, with the value written last, numbered in turn from `start`. */
  ghost predicate WrittenOut(hist: seq<Row>, at: nat, start: nat, writes: map<Key, Option<Bytes>>) {
    && |hist| == at + |writes|
    && (forall p | at <= p < |hist| ::
          hist[p].seqNo == start + (p - at) && hist[p].key in writes && hist[p].value == writes[hist[p].key])
    && (forall k | k in writes :: exists p :: at <= p < |hist| && hist[p].key == k)
  }

  lemma NumberedWrites(hist: seq<Row>, c: Commit, keys: seq<Key>)
    requires KeysOf(keys, c.txn.writes) && c.at == |hist|
    ensures var all := hist + Numbered(Entries(keys, c.txn.writes), c.start);
            all[..c.at] == hist && WrittenOut(all, c.at, c.start, c.txn.writes)
    ensures |keys| == |c.txn.writes|
  {
    var all := hist + Numbered(Entries(keys, c.txn.writes), c.start);
    NumberedFillCommit(hist, c, keys);
    KeyCount(keys, c.txn.writes);
    forall k | k in c.txn.writes ensures exists p :: c.at <= p < |all| && all[p].key == k { var p :| Wrote(all, c, k, p); }
  }

  /** A commit makes exactly the buffered writes durable. */
  lemma CommitAdds(s: State, t: nat, keys: seq<Key>)
    requires s.process.Up? && Enabled(s, CommitWrites(t, keys))
    ensures var v, s' := s.process.live, Step(s, CommitWrites(t, keys));
            && |s.hist| <= |s'.hist| && s'.hist[..|s.hist|] == s.hist
            && WrittenOut(s'.hist, |s.hist|, v.nextSeq, v.txns[t].writes)
            && s'.process.Up? && s'.process.live.nextSeq == v.nextSeq + |v.txns[t].writes|
            && s'.process.live.txns == v.txns - {t}
  {
    var v := s.process.live;
    NumberedWrites(s.hist, Commit(v.txns[t], v.nextSeq, |s.hist|), keys);
  }

  predicate Writes(c: Commit, k: Key) {
    k in c.txn.writes
  }

  /**
   Two committed transactions that write a common key did not overlap: the later one saw the earlier one's row, unless the
   key has expired. As long as nothing has been dropped, their numbers are apart as well.
   */
  lemma FirstCommitterWins(s: State, i: nat, j: nat, k: Key) returns (r: Row)
    requires Reachable(s) && i < j < |s.commits| && !Expired(k, s.floor)
    requires k in s.commits[i].txn.writes && k in s.commits[j].txn.writes
    ensures r in s.hist && r.key == k && r.value == s.commits[i].txn.writes[k]
    ensures s.commits[i].start <= r.seqNo < End(s.commits[i]) && r.seqNo < s.commits[j].txn.snapshot <= s.commits[j].start
    ensures k in s.commits[j].txn.index && s.commits[j].txn.index[k].seqNo >= r.seqNo
    ensures s.floor == I64_MIN ==> s.commits[i].start < End(s.commits[i]) <= s.commits[j].txn.snapshot
  {
    ReachableOk(s);
    var a, b := s.commits[i], s.commits[j];
    assert Stop(a) <= b.at && (s.floor == I64_MIN ==> Ordered(a, b));
    r := LaterSaw(s.hist, s.floor, a, b, k);
  }

  lemma LaterSaw(hist: seq<Row>, floor: I64, a: Commit, b: Commit, k: Key) returns (r: Row)
    requires CommitOk(hist, floor, a) && CommitOk(hist, floor, b) && Stop(a) <= b.at
    requires Writes(a, k) && Writes(b, k) && !Expired(k, floor)
    ensures r in hist && r.key == k && r.value == a.txn.writes[k]
    ensures a.start <= r.seqNo < End(a) && r.seqNo < b.txn.snapshot
    ensures k in b.txn.index && b.txn.index[k].seqNo >= r.seqNo
  {
    var before := hist[..b.at];
    var p :| Wrote(hist, a, k, p);
    r := hist[p];
    assert before[p] == r && Seen(before, b.txn, k);
    NewestIsLargest(before, r);
  }

  // ---------- No lost update ----------

  function Count(commits: seq<Commit>, k: Key): nat {
    if commits == [] then 0
    else Count(commits[..|commits| - 1], k) + if Writes(commits[|commits| - 1], k) then 1 else 0
  }

  function Iterate(f: Option<Bytes> -> Option<Bytes>, n: nat): Option<Bytes> {
    if n == 0 then None else f(Iterate(f, n - 1))
  }

  /** Place `p` of the history is one of the `j`-th commit's. */
  predicate Owns(commits: seq<Commit>, j: int, p: int) {
    0 <= j < |commits| && commits[j].at <= p < Stop(commits[j])
  }

  /** `k` is only ever written by transactions that store `f` of the value they read. */
  ghost predicate OnlyUpdatedBy(s: State, k: Key, f: Option<Bytes> -> Option<Bytes>) {
    && (forall p | 0 <= p < |s.hist| && s.hist[p].key == k :: exists j :: Owns(s.commits, j, p))
    && (forall c | c in s.commits && Writes(c, k) :: c.txn.writes[k] == f(ValueIn(c.txn.index, k)))
  }

  /** The newest value of `k` in the first `n` rows of the history. */
  function ValueAt(hist: seq<Row>, k: Key, n: nat): Option<Bytes>
    requires n <= |hist|
  {
    ValueIn(NewestMap(hist[..n]), k)
  }

  /** Between two places with no row of `k` in between, its value does not change. */
  lemma ValueAtSame(hist: seq<Row>, k: Key, m: nat, n: nat)
    requires m <= n <= |hist| && forall p | m <= p < n :: hist[p].key != k
    ensures ValueAt(hist, k, m) == ValueAt(hist, k, n)
  {
    assert hist[..n] == hist[..m] + hist[m..n];
    NewestMapMeaning(hist[m..n], k);
    NewestMapConcat(hist[..m], hist[m..n], k);
  }

  /** Right after a commit the value of a key it wrote is what it wrote: its row is newer than all the commit had seen. */
  lemma ValueAfterCommit(hist: seq<Row>, floor: I64, c: Commit, k: Key)
    requires CommitOk(hist, floor, c) && Writes(c, k) && !Expired(k, floor)
    ensures ValueAt(hist, k, Stop(c)) == c.txn.writes[k]
  {
    var before, rows := hist[..c.at], hist[c.at..Stop(c)];
    CommittedRow(hist, floor, c, k);
    assert hist[..Stop(c)] == before + rows;
    assert Seen(before, c.txn, k);
    NewestMapMeaning(before, k);
    NewestMapConcat(before, rows, k);
  }

  lemma CommittedRow(hist: seq<Row>, floor: I64, c: Commit, k: Key)
    requires CommitOk(hist, floor, c) && Writes(c, k)
    ensures var rows := hist[c.at..Stop(c)];
            k in NewestMap(rows) && NewestMap(rows)[k].seqNo >= c.start && NewestMap(rows)[k].value == c.txn.writes[k]
  {
    var rows := hist[c.at..Stop(c)];
    var p :| Wrote(hist, c, k, p);
    assert rows[p - c.at] == hist[p];
    CommitSlice(hist, c);
    NewestIsLargest(rows, hist[p]);
    NewestMapMeaning(rows, k);
  }

  lemma CommitSlice(hist: seq<Row>, c: Commit)
    requires CommitRows(hist, c)
    ensures forall r | r in hist[c.at..Stop(c)] ::
              r.seqNo >= c.start && r.key in c.txn.writes && r.value == c.txn.writes[r.key]
  {
    var rows := hist[c.at..Stop(c)];
    forall q | 0 <= q < |rows|
      ensures rows[q].seqNo >= c.start && rows[q].key in c.txn.writes && rows[q].value == c.txn.writes[rows[q].key]
    {
      assert rows[q] == hist[c.at + q];
    }
  }

  /** The commits before `i` lie before place `n`, and the others do not. */
  ghost predicate Splits(commits: seq<Commit>, i: nat, n: nat) {
    && i <= |commits|
    && (forall j | 0 <= j < i :: Stop(commits[j]) <= n)
    && (forall j | i <= j < |commits| :: n <= commits[j].at)
  }

  lemma SplitEarlier(commits: seq<Commit>, i: nat, n: nat)
    requires InOrder(commits) && 0 < i && Splits(commits, i, n)
    ensures Splits(commits, i - 1, commits[i - 1].at)
  {
  }

  /** Rows of commits before place `n` end with the last commit before it. */
  lemma OwnedUpTo(commits: seq<Commit>, i: nat, n: nat, j: int, p: nat)
    requires InOrder(commits) && 0 < i && Splits(commits, i, n) && Owns(commits, j, p) && p < n
    ensures p < Stop(commits[i - 1])
  {
    if j < i - 1 { assert Stop(commits[j]) <= commits[i - 1].at; }
  }

  /** What a commit makes of the value before it. */
  lemma UpdateLast(s: State, k: Key, f: Option<Bytes> -> Option<Bytes>, i: nat, n: nat)
    requires CommitsOk(s.hist, s.floor, s.commits) && OnlyUpdatedBy(s, k, f) && !Expired(k, s.floor)
    requires 0 < i && Splits(s.commits, i, n) && n <= |s.hist|
    ensures var c := s.commits[i - 1];
            && c.at <= |s.hist|
            && ValueAt(s.hist, k, n) == if Writes(c, k) then f(ValueAt(s.hist, k, c.at)) else ValueAt(s.hist, k, c.at)
  {
    var c := s.commits[i - 1];
    assert CommitOk(s.hist, s.floor, c) && c in s.commits;
    forall p | 0 <= p < n && s.hist[p].key == k ensures p < Stop(c) {
      var j :| Owns(s.commits, j, p);
      OwnedUpTo(s.commits, i, n, j, p);
    }
    ValueAtSame(s.hist, k, Stop(c), n);
    if Writes(c, k) {
      ValueAfterCommit(s.hist, s.floor, c, k);
      assert Seen(s.hist[..c.at], c.txn, k);
    } else {
      ValueAtSame(s.hist, k, c.at, Stop(c));
    }
  }

  lemma UpdatesNone(s: State, k: Key, f: Option<Bytes> -> Option<Bytes>, n: nat)
    requires OnlyUpdatedBy(s, k, f) && Splits(s.commits, 0, n) && n <= |s.hist|
    ensures ValueAt(s.hist, k, n) == None
  {
    forall p | 0 <= p < |s.hist| && s.hist[p].key == k ensures p >= n { var j :| Owns(s.commits, j, p); }
    NewestMapMeaning(s.hist[..n], k);
  }

  lemma CountNext(commits: seq<Commit>, k: Key, i: nat)
    requires 0 < i <= |commits|
    ensures Count(commits[..i], k) == Count(commits[..i - 1], k) + if Writes(commits[i - 1], k) then 1 else 0
  {
    assert commits[..i][..i - 1] == commits[..i - 1];
  }

  lemma IterateNext(f: Option<Bytes> -> Option<Bytes>, n: nat, written: bool, before: Option<Bytes>, after: Option<Bytes>)
    requires before == Iterate(f, n) && after == if written then f(before) else before
    ensures after == Iterate(f, n + if written then 1 else 0)
  {
  }

  lemma UpdatesStep(commits: seq<Commit>, k: Key, f: Option<Bytes> -> Option<Bytes>, i: nat,
                    before: Option<Bytes>, after: Option<Bytes>)
    requires 0 < i <= |commits| && before == Iterate(f, Count(commits[..i - 1], k))
    requires after == if Writes(commits[i - 1], k) then f(before) else before
    ensures after == Iterate(f, Count(commits[..i], k))
  {
    CountNext(commits, k, i);
    IterateNext(f, Count(commits[..i - 1], k), Writes(commits[i - 1], k), before, after);
  }

  lemma {:induction false} UpdatesBefore(s: State, k: Key, f: Option<Bytes> -> Option<Bytes>, i: nat, n: nat)
    requires CommitsOk(s.hist, s.floor, s.commits) && OnlyUpdatedBy(s, k, f) && !Expired(k, s.floor)
    requires Splits(s.commits, i, n) && n <= |s.hist|
    ensures ValueAt(s.hist, k, n) == Iterate(f, Count(s.commits[..i], k))
    decreases i
  {
    if i == 0 {
      UpdatesNone(s, k, f, n);
    } else {
      UpdateLast(s, k, f, i, n);
      SplitEarlier(s.commits, i, n);
      UpdatesBefore(s, k, f, i - 1, s.commits[i - 1].at);
      UpdatesStep(s.commits, k, f, i, ValueAt(s.hist, k, s.commits[i - 1].at), ValueAt(s.hist, k, n));
    }
  }

  lemma UpdatesUpToNow(s: State, k: Key, f: Option<Bytes> -> Option<Bytes>)
    requires Reachable(s) && OnlyUpdatedBy(s, k, f) && !Expired(k, s.floor)
    ensures ValueIn(NewestMap(s.hist), k) == Iterate(f, Count(s.commits, k))
  {
    ReachableOk(s);
    CommitsEnd(s.hist, s.floor, s.commits);
    UpdatesBefore(s, k, f, |s.commits|, |s.hist|);
    TakeAll(s.commits);
    TakeAll(s.hist);
  }

  lemma CommitsEnd(hist: seq<Row>, floor: I64, commits: seq<Commit>)
    requires CommitsOk(hist, floor, commits)
    ensures Splits(commits, |commits|, |hist|)
  {
    forall j | 0 <= j < |commits| ensures Stop(commits[j]) <= |hist| { assert CommitOk(hist, floor, commits[j]); }
  }

  /**
   Read, update and commit: as long as the key has not expired, its current value is the update applied once per successful
   commit, no more and no fewer, through crashes and reopenings.
   */
  lemma NoLostUpdate(s: State, k: Key, f: Option<Bytes> -> Option<Bytes>)
    requires Reachable(s) && s.process.Up? && OnlyUpdatedBy(s, k, f) && !Expired(k, s.floor)
    ensures ValueIn(Visible(s.process.live), k) == Iterate(f, Count(s.commits, k))
  {
    UpdatesUpToNow(s, k, f);
    VisibleIsHistory(s);
    SameViewNewest(RowsOf(Sources(s.process.live)), s.hist, s.floor, k);
    assert Newest(RowsOf(Sources(s.process.live)), k) == Newest(s.hist, k);
  }
}
