/**
 The columnar memtable (src/memtable/columnar.rs): rows grouped by series in hashed shards, in arrival order, with a
 scan for point lookups and a sort for materialising. Both must agree with the newest-version map of what was written.
 */
module Columnar {
  import opened Rows

  /** One row of a series. */
  datatype Cell = Cell(ts: I64, seqNo: nat, value: Option<Bytes>)

  function RowAt(tags: Bytes, c: Cell): Row {
    Row(Key(tags, c.ts), c.seqNo, c.value)
  }

  function CellOf(r: Row): Cell {
    Cell(r.key.ts, r.seqNo, r.value)
  }

  /** The rows of one series, in the order in which they were written. */
  function SeriesOf(log: seq<Row>, tags: Bytes): seq<Cell> {
    if log == [] then []
    else
      var front, last := SeriesOf(log[..|log| - 1], tags), log[|log| - 1];
      if last.key.tags == tags then front + [CellOf(last)] else front
  }

  lemma SeriesSnoc(log: seq<Row>, r: Row, tags: Bytes)
    ensures SeriesOf(log + [r], tags)
         == if r.key.tags == tags then SeriesOf(log, tags) + [CellOf(r)] else SeriesOf(log, tags)
  {
    assert (log + [r])[..|log|] == log;
  }

  lemma {:induction false} SeriesMembers(log: seq<Row>, tags: Bytes)
    ensures forall c :: c in SeriesOf(log, tags) <==> RowAt(tags, c) in log
  {
    if log != [] {
      var front, last := log[..|log| - 1], log[|log| - 1];
      SeriesMembers(front, tags);
      assert log == front + [last];
      assert RowAt(last.key.tags, CellOf(last)) == last;
    }
  }

  // ---------- Point lookup ----------

  /** What the scan for a timestamp finds: a later row replaces the best one only if strictly newer. */
  function Scan(cells: seq<Cell>, ts: I64): Option<Cell> {
    if cells == [] then None
    else
      var best, last := Scan(cells[..|cells| - 1], ts), cells[|cells| - 1];
      if last.ts == ts && !(best.Some? && best.value.seqNo >= last.seqNo) then Some(last) else best
  }

  lemma ScanSnoc(cells: seq<Cell>, c: Cell, ts: I64)
    ensures Scan(cells + [c], ts)
         == if c.ts == ts && !(Scan(cells, ts).Some? && Scan(cells, ts).value.seqNo >= c.seqNo) then Some(c)
            else Scan(cells, ts)
  {
    assert (cells + [c])[..|cells|] == cells;
  }

  lemma {:induction false} ScanFinds(cells: seq<Cell>, ts: I64)
    ensures Scan(cells, ts).Some? ==> Scan(cells, ts).value in cells && Scan(cells, ts).value.ts == ts
    ensures forall c | c in cells && c.ts == ts :: Scan(cells, ts).Some? && Scan(cells, ts).value.seqNo >= c.seqNo
  {
    if cells != [] {
      ScanFinds(cells[..|cells| - 1], ts);
      assert cells == cells[..|cells| - 1] + [cells[|cells| - 1]];
    }
  }

  /** `find_old` and `scan_series`: the loop both run. */
  method ScanSeries(cells: seq<Cell>, ts: I64) returns (best: Option<Cell>)
    ensures best == Scan(cells, ts)
  {
    best := None;
    for i := 0 to |cells|
      invariant best == Scan(cells[..i], ts)
    {
      ScanSnoc(cells[..i], cells[i], ts);
      assert cells[..i + 1] == cells[..i] + [cells[i]];
      if cells[i].ts == ts && !(best.Some? && best.value.seqNo >= cells[i].seqNo) {
        best := Some(cells[i]);
      }
    }
    assert cells[..|cells|] == cells;
  }

  /** Scanning a series finds exactly the newest version of the key, the first one on a tie. */
  lemma {:induction false} ScanIsNewest(log: seq<Row>, tags: Bytes, ts: I64)
    ensures Scan(SeriesOf(log, tags), ts).Some? <==> Key(tags, ts) in NewestMap(log)
    ensures Scan(SeriesOf(log, tags), ts).Some? ==>
              RowAt(tags, Scan(SeriesOf(log, tags), ts).value) == NewestMap(log)[Key(tags, ts)]
  {
    if log != [] {
      var front, last := log[..|log| - 1], log[|log| - 1];
      ScanIsNewest(front, tags, ts);
      assert log == front + [last];
      SeriesSnoc(front, last, tags);
      ScanSnoc(SeriesOf(front, tags), CellOf(last), ts);
      NewestMapMeaning(front, last.key);
    }
  }

  // ---------- Materialising a series ----------

  /** The comparison of the sort: timestamp ascending, then number descending. */
  predicate Less(a: Cell, b: Cell) {
    a.ts < b.ts || (a.ts == b.ts && a.seqNo > b.seqNo)
  }

  /** A stable sort puts the earlier of two equal elements first. */
  predicate Before(cells: seq<Cell>, i: nat, j: nat)
    requires i < |cells| && j < |cells|
  {
    Less(cells[i], cells[j]) || (!Less(cells[j], cells[i]) && i < j)
  }

  predicate InRange(s: seq<nat>, n: nat) {
    forall p | 0 <= p < |s| :: s[p] < n
  }

  predicate Ordered(cells: seq<Cell>, s: seq<nat>)
    requires InRange(s, |cells|)
  {
    forall p, q | 0 <= p < q < |s| :: Before(cells, s[p], s[q])
  }

  /** Index `i`, larger than all of `s`, goes behind the elements it does not strictly precede. */
  function InsertIndex(cells: seq<Cell>, s: seq<nat>, i: nat): (r: seq<nat>)
    requires i < |cells| && InRange(s, |cells|)
    ensures InRange(r, |cells|) && forall j: nat :: j in r <==> j == i || j in s
  {
    if s == [] then [i]
    else if Less(cells[i], cells[s[0]]) then [i] + s
    else
      assert s == [s[0]] + s[1..];
      [s[0]] + InsertIndex(cells, s[1..], i)
  }

  function SortedIndexes(cells: seq<Cell>, n: nat): (r: seq<nat>)
    requires n <= |cells|
    ensures InRange(r, |cells|) && forall j: nat :: j in r <==> j < n
  {
    if n == 0 then [] else InsertIndex(cells, SortedIndexes(cells, n - 1), n - 1)
  }

  lemma {:induction false} InsertKeepsOrder(cells: seq<Cell>, s: seq<nat>, i: nat)
    requires i < |cells| && InRange(s, |cells|) && Ordered(cells, s) && InRange(s, i)
    ensures Ordered(cells, InsertIndex(cells, s, i))
  {
    if s != [] && !Less(cells[i], cells[s[0]]) {
      InsertKeepsOrder(cells, s[1..], i);
      var rest := InsertIndex(cells, s[1..], i);
      forall q | 0 <= q < |rest| ensures Before(cells, s[0], rest[q]) {
        assert rest[q] in rest;
        if rest[q] != i {
          var p :| 0 <= p < |s[1..]| && s[1..][p] == rest[q];
          assert Before(cells, s[0], s[p + 1]);
        }
      }
    }
  }

  lemma {:induction false} SortOrders(cells: seq<Cell>, n: nat)
    requires n <= |cells|
    ensures Ordered(cells, SortedIndexes(cells, n))
  {
    if n > 0 {
      SortOrders(cells, n - 1);
      var s := SortedIndexes(cells, n - 1);
      forall p | 0 <= p < |s| ensures s[p] < n - 1 { assert s[p] in s; }
      InsertKeepsOrder(cells, s, n - 1);
    }
  }

  /** An index that comes before every other one of its timestamp is the one the scan finds. */
  lemma {:induction false} ScanIsFirst(cells: seq<Cell>, i: nat, n: nat)
    requires i < n <= |cells|
    requires forall j | 0 <= j < n && j != i && cells[j].ts == cells[i].ts :: Before(cells, i, j)
    ensures Scan(cells[..n], cells[i].ts) == Some(cells[i])
  {
    ScanSnoc(cells[..n - 1], cells[n - 1], cells[i].ts);
    assert cells[..n] == cells[..n - 1] + [cells[n - 1]];
    ScanFinds(cells[..n - 1], cells[i].ts);
    if i < n - 1 {
      ScanIsFirst(cells, i, n - 1);
    }
  }

  /** `rows` are what `Scan` finds, for exactly the timestamps that occur, in order. */
  ghost predicate Materialised(tags: Bytes, cells: seq<Cell>, rows: seq<Row>) {
    && (forall i, j | 0 <= i < j < |rows| :: rows[i].key.ts < rows[j].key.ts)
    && (forall r | r in rows :: r.key.tags == tags && Scan(cells, r.key.ts) == Some(CellOf(r)))
    && (forall c | c in cells :: exists r :: r in rows && r.key.ts == c.ts)
  }

  /** `kept` are the first indexes of their timestamps among the first `p` of the sorted indexes `idx`. */
  ghost predicate KeptOk(cells: seq<Cell>, idx: seq<nat>, p: nat, kept: seq<nat>)
    requires InRange(idx, |cells|) && InRange(kept, |cells|) && p <= |idx|
  {
    && (forall a, b | 0 <= a < b < |kept| :: cells[kept[a]].ts < cells[kept[b]].ts)
    && (forall a, q | 0 <= a < |kept| && 0 <= q < |idx| && cells[idx[q]].ts == cells[kept[a]].ts ::
          idx[q] == kept[a] || Before(cells, kept[a], idx[q]))
    && (forall q | 0 <= q < p :: exists a :: 0 <= a < |kept| && cells[kept[a]].ts == cells[idx[q]].ts)
    && (p > 0 ==> kept != [] && cells[kept[|kept| - 1]].ts == cells[idx[p - 1]].ts)
    && (p == 0 ==> kept == [])
  }

  lemma KeepSame(cells: seq<Cell>, idx: seq<nat>, p: nat, kept: seq<nat>)
    requires InRange(idx, |cells|) && InRange(kept, |cells|) && 0 < p < |idx|
    requires KeptOk(cells, idx, p, kept) && cells[idx[p - 1]].ts == cells[idx[p]].ts
    ensures KeptOk(cells, idx, p + 1, kept)
  {
  }

  lemma KeepNext(cells: seq<Cell>, idx: seq<nat>, p: nat, kept: seq<nat>)
    requires InRange(idx, |cells|) && Ordered(cells, idx) && InRange(kept, |cells|) && p < |idx|
    requires KeptOk(cells, idx, p, kept) && (p > 0 ==> cells[idx[p - 1]].ts != cells[idx[p]].ts)
    ensures InRange(kept + [idx[p]], |cells|) && KeptOk(cells, idx, p + 1, kept + [idx[p]])
  {
    var kept' := kept + [idx[p]];
    if p > 0 { assert Before(cells, idx[p - 1], idx[p]); }
    forall q | 0 <= q < p ensures cells[idx[q]].ts < cells[idx[p]].ts {
      if q < p - 1 { assert Before(cells, idx[q], idx[p - 1]); }
    }
    forall a, b | 0 <= a < b < |kept'| ensures cells[kept'[a]].ts < cells[kept'[b]].ts {
      if b == |kept| && a < |kept| - 1 { assert cells[kept[a]].ts < cells[kept[|kept| - 1]].ts; }
    }
    forall q | 0 <= q < p + 1 ensures exists a :: 0 <= a < |kept'| && cells[kept'[a]].ts == cells[idx[q]].ts {
      if q < p {
        var a :| 0 <= a < |kept| && cells[kept[a]].ts == cells[idx[q]].ts;
        assert kept'[a] == kept[a];
      } else {
        assert kept'[|kept|] == idx[p];
      }
    }
  }

  /** The filter after the sort: keep an index when its timestamp differs from the last one kept. */
  method KeepFirsts(cells: seq<Cell>, idx: seq<nat>) returns (kept: seq<nat>)
    requires InRange(idx, |cells|) && Ordered(cells, idx)
    ensures InRange(kept, |cells|) && KeptOk(cells, idx, |idx|, kept)
  {
    var lastTs: Option<I64> := None;
    kept := [];
    for p := 0 to |idx|
      invariant InRange(kept, |cells|) && KeptOk(cells, idx, p, kept)
      invariant lastTs == if p == 0 then None else Some(cells[idx[p - 1]].ts)
    {
      var ts := cells[idx[p]].ts;
      if lastTs != Some(ts) {
        KeepNext(cells, idx, p, kept);
        lastTs := Some(ts);
        kept := kept + [idx[p]];
      } else {
        KeepSame(cells, idx, p, kept);
      }
    }
  }

  /** `materialize_series`: sort the row numbers, keep the first of each timestamp, and copy those rows. */
  method MaterializeSeries(tags: Bytes, cells: seq<Cell>) returns (rows: seq<Row>)
    ensures Materialised(tags, cells, rows)
  {
    var idx := SortedIndexes(cells, |cells|);
    SortOrders(cells, |cells|);
    var kept := KeepFirsts(cells, idx);
    rows := seq(|kept|, a requires 0 <= a < |kept| => RowAt(tags, cells[kept[a]]));
    KeptRows(tags, cells, idx, kept, rows);
  }

  lemma KeptIsScanned(cells: seq<Cell>, idx: seq<nat>, kept: seq<nat>, a: nat)
    requires InRange(idx, |cells|) && forall j: nat :: j in idx <==> j < |cells|
    requires InRange(kept, |cells|) && KeptOk(cells, idx, |idx|, kept) && a < |kept|
    ensures Scan(cells, cells[kept[a]].ts) == Some(cells[kept[a]])
  {
    forall j: nat | j < |cells| && j != kept[a] && cells[j].ts == cells[kept[a]].ts
      ensures Before(cells, kept[a], j)
    {
      assert j in idx;
      var q :| 0 <= q < |idx| && idx[q] == j;
    }
    ScanIsFirst(cells, kept[a], |cells|);
    assert cells[..|cells|] == cells;
  }

  lemma KeptRows(tags: Bytes, cells: seq<Cell>, idx: seq<nat>, kept: seq<nat>, rows: seq<Row>)
    requires InRange(idx, |cells|) && forall j: nat :: j in idx <==> j < |cells|
    requires InRange(kept, |cells|) && KeptOk(cells, idx, |idx|, kept)
    requires |rows| == |kept| && forall a | 0 <= a < |kept| :: rows[a] == RowAt(tags, cells[kept[a]])
    ensures Materialised(tags, cells, rows)
  {
    forall a | 0 <= a < |kept| ensures Scan(cells, rows[a].key.ts) == Some(CellOf(rows[a])) {
      KeptIsScanned(cells, idx, kept, a);
    }
    forall c | c in cells ensures exists r :: r in rows && r.key.ts == c.ts {
      var j :| 0 <= j < |cells| && cells[j] == c;
      assert j in idx;
      var q :| 0 <= q < |idx| && idx[q] == j;
      var a :| 0 <= a < |kept| && cells[kept[a]].ts == cells[idx[q]].ts;
      assert rows[a] in rows;
    }
  }
}
