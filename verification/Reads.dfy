/**
 `Region::get` (src/memtable/memtable.rs): it visits the sources from newest to oldest, skips those whose highest
 number does not exceed what it already has, and overwrites its answer without comparing.
 */
module Reads {
  import opened Rows
  import opened Machine
  import opened WorkerSteps

  /** A point lookup in one source. */
  function Lookup(t: Table, k: Key): Option<Row> {
    Newest(t.rows, k)
  }

  function SeqOf(best: Option<Row>): nat {
    if best.Some? then best.value.seqNo else 0
  }

  /** One round of the loop. */
  function Visit(t: Table, k: Key, best: Option<Row>): Option<Row> {
    if MaxSeq(t.rows) > SeqOf(best) && Lookup(t, k).Some? then Lookup(t, k) else best
  }

  function VisitAll(ts: seq<Table>, k: Key): Option<Row> {
    if ts == [] then None else Visit(ts[|ts| - 1], k, VisitAll(ts[..|ts| - 1], k))
  }

  lemma VisitSnoc(ts: seq<Table>, t: Table, k: Key)
    ensures VisitAll(ts + [t], k) == Visit(t, k, VisitAll(ts, k))
  {
    assert (ts + [t])[..|ts|] == ts;
  }

  function NewestOf(ts: seq<Table>, k: Key): Option<Row> {
    Newest(RowsOf(ts), k)
  }

  /** Numbers start at one, and of one key they identify the row. */
  ghost predicate RowsOk(ts: seq<Table>, k: Key) {
    forall p, q | p in TableRows(ts) && q in TableRows(ts) && p.key == k && q.key == k ::
      p.seqNo >= 1 && (p.seqNo == q.seqNo ==> p == q)
  }

  lemma NewestOfMeans(ts: seq<Table>, k: Key)
    ensures NewestOf(ts, k).Some? <==> exists r :: r in TableRows(ts) && r.key == k
    ensures NewestOf(ts, k).Some? ==> IsNewest(TableRows(ts), NewestOf(ts, k).value) && NewestOf(ts, k).value.key == k
  {
    RowsOfMembers(ts);
    NewestMapMeaning(RowsOf(ts), k);
    if k in NewestMap(RowsOf(ts)) { MapEntryIsNewest(RowsOf(ts), k); }
    if exists r :: r in TableRows(ts) && r.key == k {
      var r :| r in TableRows(ts) && r.key == k;
      NewestIsLargest(RowsOf(ts), r);
    }
  }

  lemma NewestOfIs(ts: seq<Table>, k: Key, r: Row)
    requires RowsOk(ts, k) && IsNewest(TableRows(ts), r) && r.key == k
    ensures NewestOf(ts, k) == Some(r)
  {
    NewestOfMeans(ts, k);
  }

  lemma TableRowsSnoc(ts: seq<Table>, t: Table)
    ensures TableRows(ts + [t]) == TableRows(ts) + RowSet(t.rows)
  {
  }

  lemma LookupMeans(t: Table, k: Key)
    ensures Lookup(t, k).Some? <==> exists r :: r in t.rows && r.key == k
    ensures Lookup(t, k).Some? ==> IsNewest(RowSet(t.rows), Lookup(t, k).value) && Lookup(t, k).value.key == k
    ensures Lookup(t, k).Some? ==> Lookup(t, k).value.seqNo <= MaxSeq(t.rows)
  {
    NewestMapMeaning(t.rows, k);
    MaxSeqIsMax(t.rows);
    if k in NewestMap(t.rows) { MapEntryIsNewest(t.rows, k); }
    if exists r :: r in t.rows && r.key == k {
      var r :| r in t.rows && r.key == k;
      NewestIsLargest(t.rows, r);
    }
  }

  /**
   A source after every holder of the newest version that holds an older version of `k` and also, for whatever
   key, a number above the newest version's. Both facts are in the sources' own statistics and lookups.
   */
  ghost predicate Misleads(ts: seq<Table>, k: Key, j: nat)
    requires j < |ts|
  {
    && Lookup(ts[j], k).Some? && NewestOf(ts, k).Some?
    && MaxSeq(ts[j].rows) > NewestOf(ts, k).value.seqNo
    && forall i | j <= i < |ts| :: Lookup(ts[i], k) != NewestOf(ts, k)
  }

  ghost predicate Misled(ts: seq<Table>, k: Key) {
    exists j: nat :: j < |ts| && Misleads(ts, k, j)
  }

  lemma RowsOkFront(ts: seq<Table>, k: Key)
    requires RowsOk(ts, k) && ts != []
    ensures RowsOk(ts[..|ts| - 1], k)
    ensures TableRows(ts) == TableRows(ts[..|ts| - 1]) + RowSet(ts[|ts| - 1].rows)
  {
    assert ts == ts[..|ts| - 1] + [ts[|ts| - 1]];
    TableRowsSnoc(ts[..|ts| - 1], ts[|ts| - 1]);
  }

  /** How the newest version of a key depends on one more source. */
  lemma NewestOfSnoc(ts: seq<Table>, t: Table, k: Key)
    ensures var front, here := NewestOf(ts, k), Lookup(t, k);
            NewestOf(ts + [t], k)
            == if here.Some? && (front.Some? ==> here.value.seqNo > front.value.seqNo) then here else front
  {
    RowsOfSnoc(ts, t);
    NewestMapConcat(RowsOf(ts), t.rows, k);
  }

  /** The loop ends with some version of the key whenever there is one. */
  lemma {:induction false} VisitAllHeld(ts: seq<Table>, k: Key)
    requires RowsOk(ts, k)
    ensures VisitAll(ts, k).Some? <==> NewestOf(ts, k).Some?
    ensures VisitAll(ts, k).Some? ==> VisitAll(ts, k).value in TableRows(ts) && VisitAll(ts, k).value.key == k
    ensures SeqOf(VisitAll(ts, k)) <= SeqOf(NewestOf(ts, k))
    decreases |ts|
  {
    if ts == [] {
      assert TableRows(ts) == {};
      NewestOfMeans(ts, k);
    } else {
      var n := |ts| - 1;
      RowsOkFront(ts, k);
      VisitAllHeld(ts[..n], k);
      assert ts == ts[..n] + [ts[n]];
      NewestOfSnoc(ts[..n], ts[n], k);
      LookupMeans(ts[n], k);
      NewestOfMeans(ts, k);
    }
  }

  /** A misleading source stays one when a source without the newest version follows, and vice versa. */
  lemma MisleadsSnoc(ts: seq<Table>, k: Key, j: nat)
    requires ts != [] && j < |ts| - 1
    requires NewestOf(ts, k) == NewestOf(ts[..|ts| - 1], k) != Lookup(ts[|ts| - 1], k)
    ensures Misleads(ts, k, j) <==> Misleads(ts[..|ts| - 1], k, j)
  {
    var front := ts[..|ts| - 1];
    assert forall i | j <= i < |ts| - 1 :: front[i] == ts[i];
  }

  lemma MisledSnoc(ts: seq<Table>, k: Key)
    requires ts != []
    requires NewestOf(ts, k) == NewestOf(ts[..|ts| - 1], k) != Lookup(ts[|ts| - 1], k)
    ensures var last := ts[|ts| - 1];
            Misled(ts, k) <==>
              Misled(ts[..|ts| - 1], k)
              || (NewestOf(ts, k).Some? && Lookup(last, k).Some? && MaxSeq(last.rows) > NewestOf(ts, k).value.seqNo)
  {
    var n := |ts| - 1;
    if j: nat :| j < n && Misleads(ts[..n], k, j) { MisleadsSnoc(ts, k, j); }
    if j: nat :| j < n && Misleads(ts, k, j) { MisleadsSnoc(ts, k, j); }
    assert Misleads(ts, k, n) <==>
      NewestOf(ts, k).Some? && Lookup(ts[n], k).Some? && MaxSeq(ts[n].rows) > NewestOf(ts, k).value.seqNo;
  }

  /** A last source that holds the newest version ends the loop with it, whatever was found before. */
  lemma LastHolds(ts: seq<Table>, k: Key, best: Option<Row>)
    requires ts != [] && best == VisitAll(ts[..|ts| - 1], k)
    requires Lookup(ts[|ts| - 1], k).Some? && NewestOf(ts, k) == Lookup(ts[|ts| - 1], k)
    requires var here := Lookup(ts[|ts| - 1], k).value;
             && 1 <= here.seqNo <= MaxSeq(ts[|ts| - 1].rows) && SeqOf(best) <= here.seqNo
             && (SeqOf(best) == here.seqNo ==> best == Some(here))
    ensures VisitAll(ts, k) == NewestOf(ts, k) && !Misled(ts, k)
  {
    forall j: nat | j < |ts| ensures !Misleads(ts, k, j) {
      assert Lookup(ts[|ts| - 1], k) == NewestOf(ts, k);
    }
  }

  /** A last source without the newest version can only do harm. */
  lemma LastOlder(ts: seq<Table>, k: Key, best: Option<Row>)
    requires ts != [] && best == VisitAll(ts[..|ts| - 1], k)
    requires NewestOf(ts, k).Some? && NewestOf(ts, k) == NewestOf(ts[..|ts| - 1], k) != Lookup(ts[|ts| - 1], k)
    requires SeqOf(best) <= NewestOf(ts, k).value.seqNo
    requires best == NewestOf(ts, k) <==> !Misled(ts[..|ts| - 1], k)
    ensures VisitAll(ts, k) == NewestOf(ts, k) <==> !Misled(ts, k)
  {
    MisledSnoc(ts, k);
  }

  /** What the sources before the last one and the last one have in common for one key. */
  ghost predicate LastKnown(ts: seq<Table>, k: Key)
    requires ts != []
  {
    var best, front, here := VisitAll(ts[..|ts| - 1], k), NewestOf(ts[..|ts| - 1], k), Lookup(ts[|ts| - 1], k);
    && (best.Some? <==> front.Some?) && SeqOf(best) <= SeqOf(front)
    && NewestOf(ts, k) == (if here.Some? && (front.Some? ==> here.value.seqNo > front.value.seqNo) then here else front)
    && (here.Some? ==>
          && 1 <= here.value.seqNo <= MaxSeq(ts[|ts| - 1].rows)
          && (SeqOf(best) == here.value.seqNo ==> best == here)
          && (SeqOf(front) == here.value.seqNo ==> front == here))
  }

  lemma KnowLast(ts: seq<Table>, k: Key)
    requires RowsOk(ts, k) && ts != []
    ensures LastKnown(ts, k)
  {
    var front, last := ts[..|ts| - 1], ts[|ts| - 1];
    RowsOkFront(ts, k);
    VisitAllHeld(front, k);
    NewestOfMeans(front, k);
    LookupMeans(last, k);
    assert ts == front + [last];
    NewestOfSnoc(front, last, k);
    assert Lookup(last, k).Some? ==> Lookup(last, k).value in TableRows(ts);
  }

  lemma GetStep(ts: seq<Table>, k: Key)
    requires ts != [] && LastKnown(ts, k)
    requires VisitAll(ts[..|ts| - 1], k) == NewestOf(ts[..|ts| - 1], k) <==> !Misled(ts[..|ts| - 1], k)
    ensures VisitAll(ts, k) == NewestOf(ts, k) <==> !Misled(ts, k)
  {
    var front, here := NewestOf(ts[..|ts| - 1], k), Lookup(ts[|ts| - 1], k);
    if here.Some? && SeqOf(front) <= here.value.seqNo {
      LastHolds(ts, k, VisitAll(ts[..|ts| - 1], k));
    } else if front.Some? {
      LastOlder(ts, k, VisitAll(ts[..|ts| - 1], k));
    }
  }

  /** `get`'s loop answers with the newest version exactly when no source misleads it. */
  lemma {:induction false} GetIsNewestIff(ts: seq<Table>, k: Key)
    requires RowsOk(ts, k)
    ensures VisitAll(ts, k) == NewestOf(ts, k) <==> !Misled(ts, k)
    decreases |ts|
  {
    if ts != [] {
      RowsOkFront(ts, k);
      GetIsNewestIff(ts[..|ts| - 1], k);
      KnowLast(ts, k);
      GetStep(ts, k);
    }
  }
}
