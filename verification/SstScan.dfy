/** Range scans over an SST (src/sstable/sstable.rs:693-798, 850-903): every shortcut yields what the filter yields. */
module SstScan {
  import opened Rows
  import opened Memtable
  import opened SsTable
  import opened SstFile

  // ---------- The groups that are read ----------

  function Pick(chunks: seq<Batch>, selected: seq<nat>): seq<Batch>
    requires forall x | 0 <= x < |selected| :: selected[x] < |chunks|
  {
    if selected == [] then [] else Pick(chunks, selected[..|selected| - 1]) + [chunks[selected[|selected| - 1]]]
  }

  /** How many of the selected groups come before group `n`. */
  function CountBelow(selected: seq<nat>, n: nat): (c: nat)
    ensures c <= |selected|
  {
    if selected == [] || selected[|selected| - 1] < n then |selected| else CountBelow(selected[..|selected| - 1], n)
  }

  lemma {:induction false} CountBelowMeans(selected: seq<nat>, n: nat)
    requires Rising(selected)
    ensures forall x | 0 <= x < |selected| :: x < CountBelow(selected, n) <==> selected[x] < n
  {
    if selected != [] && selected[|selected| - 1] >= n {
      CountBelowMeans(selected[..|selected| - 1], n);
    }
  }

  /** What the groups before `n` pass; one more group adds what it passes. */
  lemma PassesNext(chunks: seq<Batch>, start: Key, end: Key, range: TsRange, n: nat)
    requires n < |chunks|
    ensures Passing(Flatten(chunks[..n + 1]), start, end, range)
         == Passing(Flatten(chunks[..n]), start, end, range) + Passing(chunks[n], start, end, range)
  {
    FlattenSnoc(chunks[..n], chunks[n]);
    assert chunks[..n + 1] == chunks[..n] + [chunks[n]];
    PassingConcat(Flatten(chunks[..n]), chunks[n], start, end, range);
  }

  /** The passing rows of the selected groups before `n`. */
  function PickedPasses(chunks: seq<Batch>, selected: seq<nat>, start: Key, end: Key, range: TsRange, c: nat): seq<Row>
    requires c <= |selected| && forall x | 0 <= x < |selected| :: selected[x] < |chunks|
  {
    Passing(Flatten(Pick(chunks, selected[..c])), start, end, range)
  }

  lemma PickIn(chunks: seq<Batch>, selected: seq<nat>, start: Key, end: Key, range: TsRange, n: nat, x: nat)
    requires Selects(chunks, selected, start, end, range) && n < |chunks| && x < |selected| && selected[x] == n
    ensures CountBelow(selected, n) == x && CountBelow(selected, n + 1) == x + 1
    ensures PickedPasses(chunks, selected, start, end, range, x + 1)
         == PickedPasses(chunks, selected, start, end, range, x) + Passing(chunks[n], start, end, range)
  {
    CountBelowMeans(selected, n);
    CountBelowMeans(selected, n + 1);
    NextCount(selected, n + 1, CountBelow(selected, n + 1), CountBelow(selected, n), x);
    PickNext(chunks, selected, x, start, end, range);
  }

  lemma PickOut(chunks: seq<Batch>, selected: seq<nat>, start: Key, end: Key, range: TsRange, n: nat)
    requires Selects(chunks, selected, start, end, range) && n < |chunks| && n !in selected
    ensures CountBelow(selected, n + 1) == CountBelow(selected, n) && Passing(chunks[n], start, end, range) == []
  {
    CountBelowMeans(selected, n);
    CountBelowMeans(selected, n + 1);
    SameCount(selected, n + 1, CountBelow(selected, n + 1), CountBelow(selected, n));
    PassingNone(chunks[n], start, end, range);
  }

  /** The first `n` groups pass what the selected ones among them pass. */
  lemma {:induction false} PickPasses(chunks: seq<Batch>, selected: seq<nat>, start: Key, end: Key, range: TsRange, n: nat)
    requires Selects(chunks, selected, start, end, range) && n <= |chunks|
    ensures Passing(Flatten(chunks[..n]), start, end, range)
         == PickedPasses(chunks, selected, start, end, range, CountBelow(selected, n))
  {
    if n == 0 {
      CountBelowMeans(selected, 0);
      if selected != [] { assert !(selected[0] < 0); }
    } else {
      var m := n - 1;
      PickPasses(chunks, selected, start, end, range, m);
      PassesNext(chunks, start, end, range, m);
      if x :| 0 <= x < |selected| && selected[x] == m {
        PickIn(chunks, selected, start, end, range, m, x);
      } else {
        PickOut(chunks, selected, start, end, range, m);
        SeqAssoc(Passing(Flatten(chunks[..m]), start, end, range), [], []);
      }
    }
  }

  lemma SameCount(selected: seq<nat>, n: nat, c: nat, d: nat)
    requires n > 0 && n - 1 !in selected && c <= |selected| && d <= |selected|
    requires forall x | 0 <= x < |selected| :: x < c <==> selected[x] < n
    requires forall x | 0 <= x < |selected| :: x < d <==> selected[x] < n - 1
    ensures c == d
  {
    assert c < |selected| ==> selected[c] in selected;
    assert d < |selected| ==> selected[d] in selected;
  }

  lemma NextCount(selected: seq<nat>, n: nat, c: nat, d: nat, x: nat)
    requires Rising(selected) && n > 0 && x < |selected| && selected[x] == n - 1 && c <= |selected| && d <= |selected|
    requires forall y | 0 <= y < |selected| :: y < c <==> selected[y] < n
    requires forall y | 0 <= y < |selected| :: y < d <==> selected[y] < n - 1
    ensures d == x && c == x + 1
  {
    assert x > 0 ==> selected[x - 1] < selected[x];
    assert x + 1 < |selected| ==> selected[x + 1] > selected[x];
  }

  lemma PickNext(chunks: seq<Batch>, selected: seq<nat>, x: nat, start: Key, end: Key, range: TsRange)
    requires x < |selected| && forall y | 0 <= y < |selected| :: selected[y] < |chunks|
    ensures Passing(Flatten(Pick(chunks, selected[..x + 1])), start, end, range)
         == Passing(Flatten(Pick(chunks, selected[..x])), start, end, range)
            + Passing(chunks[selected[x]], start, end, range)
  {
    assert selected[..x + 1][..x] == selected[..x];
    FlattenSnoc(Pick(chunks, selected[..x]), chunks[selected[x]]);
    PassingConcat(Flatten(Pick(chunks, selected[..x])), chunks[selected[x]], start, end, range);
  }

  lemma {:induction false} PickMembers(chunks: seq<Batch>, selected: seq<nat>, r: Row)
    requires forall x | 0 <= x < |selected| :: selected[x] < |chunks|
    requires r in Flatten(Pick(chunks, selected))
    ensures exists x :: 0 <= x < |selected| && r in chunks[selected[x]]
  {
    if selected != [] {
      var n := |selected| - 1;
      FlattenSnoc(Pick(chunks, selected[..n]), chunks[selected[n]]);
      if r !in chunks[selected[n]] {
        PickMembers(chunks, selected[..n], r);
        var x :| 0 <= x < n && r in chunks[selected[..n][x]];
        assert r in chunks[selected[x]];
      }
    }
  }

  lemma {:induction false} PickSorted(chunks: seq<Batch>, selected: seq<nat>)
    requires Sorted(Flatten(chunks)) && Rising(selected)
    requires forall x | 0 <= x < |selected| :: selected[x] < |chunks|
    ensures Sorted(Flatten(Pick(chunks, selected)))
  {
    if selected != [] {
      var n := |selected| - 1;
      var front := Flatten(Pick(chunks, selected[..n]));
      PickSorted(chunks, selected[..n]);
      ChunkSorted(chunks, selected[n]);
      FlattenSnoc(Pick(chunks, selected[..n]), chunks[selected[n]]);
      forall p: Row, q: Row | p in front && q in chunks[selected[n]] ensures KeyLess(p.key, q.key) {
        PickMembers(chunks, selected[..n], p);
        var x :| 0 <= x < n && p in chunks[selected[..n][x]];
        ChunkOrder(chunks, selected[x], selected[n], p, q);
      }
      SortedConcat(front, chunks[selected[n]]);
    }
  }

  // ---------- The iterator ----------

  function Masked(batch: seq<Row>, mask: seq<bool>): seq<Row>
    requires |mask| == |batch|
  {
    if batch == [] then []
    else (if mask[0] then [batch[0]] else []) + Masked(batch[1..], mask[1..])
  }

  lemma {:induction false} MaskedIsPassing(batch: seq<Row>, mask: seq<bool>, start: Key, end: Key, range: TsRange)
    requires |mask| == |batch|
    requires forall i | 0 <= i < |batch| :: mask[i] == Passes(batch[i].key, start, end, range)
    ensures Masked(batch, mask) == Passing(batch, start, end, range)
  {
    if batch != [] {
      MaskedIsPassing(batch[1..], mask[1..], start, end, range);
    }
  }

  /** Without a timestamp range, a sorted batch whose ends lie in the bounds passes as a whole. */
  lemma WholeBatch(batch: Batch, start: Key, end: Key)
    requires Sorted(batch) && KeyLeq(start, batch[0].key) && KeyLeq(batch[|batch| - 1].key, end)
    ensures Passing(batch, start, end, None) == batch
  {
    forall r | r in batch ensures Passes(r.key, start, end, None) {
      var i :| 0 <= i < |batch| && batch[i] == r;
      if i > 0 && start != batch[0].key { KeyTransitive(start, batch[0].key, r.key); }
      if i < |batch| - 1 && batch[|batch| - 1].key != end { KeyTransitive(r.key, batch[|batch| - 1].key, end); }
    }
    PassingAll(batch, start, end, None);
  }

  lemma NoneOfBatch(batch: Batch, start: Key, end: Key)
    requires Sorted(batch) && (KeyLess(batch[|batch| - 1].key, start) || KeyLess(end, batch[0].key))
    ensures Passing(batch, start, end, None) == []
  {
    forall r | r in batch ensures !Passes(r.key, start, end, None) {
      var i :| 0 <= i < |batch| && batch[i] == r;
      if KeyLess(batch[|batch| - 1].key, start) {
        if i < |batch| - 1 { KeyTransitive(r.key, batch[|batch| - 1].key, start); }
        KeyAsymmetric(r.key, start);
      } else {
        if i > 0 { KeyTransitive(end, batch[0].key, r.key); }
        KeyAsymmetric(end, r.key);
      }
    }
    PassingNone(batch, start, end, None);
  }

  class SSTableBatchIter {
    var inner: seq<Batch>     // what the file reader still has to hand out
    const start: Key
    const end: Key
    const range: TsRange
    const full: bool

    ghost predicate Valid()
      reads this
    {
      Sorted(Flatten(inner)) && (full ==> Passing(Flatten(inner), start, end, range) == Flatten(inner))
    }

    /** The rows still to come. */
    ghost function Rest(): seq<Row>
      reads this
    {
      Passing(Flatten(inner), start, end, range)
    }

    constructor (inner: seq<Batch>, start: Key, end: Key, range: TsRange, full: bool)
      requires Sorted(Flatten(inner)) && (full ==> Passing(Flatten(inner), start, end, range) == Flatten(inner))
      ensures Valid() && Rest() == Passing(Flatten(inner), start, end, range)
    {
      this.inner, this.start, this.end, this.range, this.full := inner, start, end, range, full;
    }

    /** The next batch with passing rows; exactly those are handed out, in order. */
    method Next() returns (next: Option<Batch>)
      requires Valid()
      modifies `inner
      ensures Valid()
      ensures next.Some? ==> old(Rest()) == next.value + Rest()
      ensures next.None? ==> old(Rest()) == [] && inner == []
      ensures |inner| <= |old(inner)| && (next.Some? ==> |inner| < |old(inner)|)
    {
      while inner != []
        invariant Valid() && Rest() == old(Rest()) && |inner| <= |old(inner)|
        decreases |inner|
      {
        var batch, rest := inner[0], inner[1..];
        SortedPart(batch, Flatten(rest));
        PassingConcat(batch, Flatten(rest), start, end, range);
        if full { FullSplits(batch, Flatten(rest), start, end, range); }
        inner := rest;
        if full { return Some(batch); }
        if range.None? {
          if KeyLeq(start, batch[0].key) && KeyLeq(batch[|batch| - 1].key, end) {
            WholeBatch(batch, start, end);
            return Some(batch);
          }
          if KeyLess(batch[|batch| - 1].key, start) || KeyLess(end, batch[0].key) {
            NoneOfBatch(batch, start, end);
            continue;
          }
        }
        var kept := Filtered(batch);
        if kept != [] { return Some(kept); }
      }
      return None;
    }

    /** The row mask, with its two shortcuts. */
    method Filtered(batch: Batch) returns (kept: seq<Row>)
      ensures kept == Passing(batch, start, end, range)
    {
      var mask := seq(|batch|, i requires 0 <= i < |batch| => Passes(batch[i].key, start, end, range));
      if forall i | 0 <= i < |mask| :: mask[i] {
        forall r | r in batch ensures Passes(r.key, start, end, range) {
          var i :| 0 <= i < |batch| && batch[i] == r;
          assert mask[i];
        }
        PassingAll(batch, start, end, range);
        return batch;
      }
      if forall i | 0 <= i < |mask| :: !mask[i] {
        forall r | r in batch ensures !Passes(r.key, start, end, range) {
          var i :| 0 <= i < |batch| && batch[i] == r;
          assert !mask[i];
        }
        PassingNone(batch, start, end, range);
        return [];
      }
      MaskedIsPassing(batch, mask, start, end, range);
      kept := Masked(batch, mask);
    }
  }

  lemma {:induction false} PassingShorter(rows: seq<Row>, start: Key, end: Key, range: TsRange)
    ensures |Passing(rows, start, end, range)| <= |rows|
  {
    if rows != [] { PassingShorter(rows[1..], start, end, range); }
  }

  lemma FullSplits(a: seq<Row>, b: seq<Row>, start: Key, end: Key, range: TsRange)
    requires Passing(a + b, start, end, range) == a + b
    ensures Passing(a, start, end, range) == a && Passing(b, start, end, range) == b
  {
    PassingConcat(a, b, start, end, range);
    PassingShorter(a, start, end, range);
    PassingShorter(b, start, end, range);
    var p, q := Passing(a, start, end, range), Passing(b, start, end, range);
    assert |p| == |a| && |q| == |b|;
    assert p == (p + q)[..|a|] == (a + b)[..|a|] == a;
    assert q == (p + q)[|a|..] == (a + b)[|a|..] == b;
  }

  // ---------- The scan ----------

  lemma OutsideRange(rows: seq<Row>, start: Key, end: Key, range: TsRange)
    requires Sorted(rows)
    requires rows == [] || KeyLess(end, start) || KeyLess(end, rows[0].key) || KeyLess(rows[|rows| - 1].key, start)
    ensures Passing(rows, start, end, range) == []
  {
    forall r | r in rows ensures !Passes(r.key, start, end, range) {
      var i :| 0 <= i < |rows| && rows[i] == r;
      if Passes(r.key, start, end, range) {
        KeyIrreflexive(r.key);
        if KeyLess(end, start) {
          if r.key != start { KeyTransitive(end, start, r.key); }
          if r.key != end { KeyAsymmetric(r.key, end); }
        } else if KeyLess(end, rows[0].key) {
          if i > 0 { KeyTransitive(end, rows[0].key, r.key); }
          if r.key != end { KeyAsymmetric(r.key, end); }
        } else {
          if i < |rows| - 1 { KeyTransitive(r.key, rows[|rows| - 1].key, start); }
          if r.key != start { KeyAsymmetric(start, r.key); }
        }
      }
    }
    PassingNone(rows, start, end, range);
  }

  lemma CoveredRange(rows: seq<Row>, start: Key, end: Key)
    requires Sorted(rows) && rows != [] && KeyLeq(start, rows[0].key) && KeyLeq(rows[|rows| - 1].key, end)
    ensures forall r | r in rows :: Passes(r.key, start, end, None)
  {
    forall r | r in rows ensures Passes(r.key, start, end, None) {
      var i :| 0 <= i < |rows| && rows[i] == r;
      if i > 0 && start != rows[0].key { KeyTransitive(start, rows[0].key, r.key); }
      if i < |rows| - 1 && rows[|rows| - 1].key != end { KeyTransitive(r.key, rows[|rows| - 1].key, end); }
    }
  }

  /** The shortcuts of a scan: nothing to read, everything to hand out as it is, or the selected groups to filter. */
  method OpenScan(sst: SSTable, start: Key, end: Key, range: TsRange) returns (iter: SSTableBatchIter)
    requires sst.Valid()
    ensures fresh(iter) && iter.Valid() && iter.Rest() == Passing(sst.Rows(), start, end, range)
  {
    if sst.entryCount == 0 || KeyLess(end, start) || KeyLess(end, sst.minKey) || KeyLess(sst.maxKey, start) {
      OutsideRange(sst.Rows(), start, end, range);
      iter := new SSTableBatchIter([], start, end, range, false);
      return;
    }
    var full := range.None? && KeyLeq(start, sst.minKey) && KeyLeq(sst.maxKey, end);
    var chosen := SelectRowGroups(sst.groups, sst.chunks, start, end, range);
    ghost var selected := if chosen.Some? then chosen.value else [];
    PickPasses(sst.chunks, selected, start, end, range, |sst.chunks|);
    CountBelowMeans(selected, |sst.chunks|);
    assert CountBelow(selected, |sst.chunks|) == |selected|;
    assert sst.chunks[..|sst.chunks|] == sst.chunks && selected[..|selected|] == selected;
    if chosen.None? {
      iter := new SSTableBatchIter([], start, end, range, false);
      return;
    }
    var read := Flatten(Pick(sst.chunks, chosen.value));
    PickSorted(sst.chunks, chosen.value);
    var inner := ReadRows(read, sst.readSize);
    if full {
      FullPasses(sst.chunks, chosen.value, start, end);
    }
    iter := new SSTableBatchIter(inner, start, end, range, full);
  }

  /** `scan_batches`: an iterator over exactly the rows in the bounds, in order. */
  method ScanBatches(sst: SSTable, start: Key, end: Key, range: TsRange) returns (iter: SSTableBatchIter)
    requires sst.Valid()
    ensures fresh(iter) && iter.Valid() && iter.Rest() == Passing(sst.Rows(), start, end, range)
    ensures ScanOf(iter.Rest(), sst.Rows(), start, end, range)
  {
    iter := OpenScan(sst, start, end, range);
    PassingScans(sst.Rows(), start, end, range);
  }

  lemma FullPasses(chunks: seq<Batch>, selected: seq<nat>, start: Key, end: Key)
    requires Sorted(Flatten(chunks)) && Flatten(chunks) != []
    requires forall x | 0 <= x < |selected| :: selected[x] < |chunks|
    requires KeyLeq(start, Flatten(chunks)[0].key) && KeyLeq(Flatten(chunks)[|Flatten(chunks)| - 1].key, end)
    ensures var read := Flatten(Pick(chunks, selected)); Passing(read, start, end, None) == read
  {
    var read := Flatten(Pick(chunks, selected));
    CoveredRange(Flatten(chunks), start, end);
    forall r | r in read ensures Passes(r.key, start, end, None) {
      PickMembers(chunks, selected, r);
      FlattenMember(chunks, r);
    }
    PassingAll(read, start, end, None);
  }

  /** Draining the iterator gives exactly the rows that pass. */
  method Drain(iter: SSTableBatchIter) returns (rows: seq<Row>)
    requires iter.Valid()
    modifies iter
    ensures rows == old(iter.Rest())
  {
    rows := [];
    while true
      invariant iter.Valid() && rows + iter.Rest() == old(iter.Rest())
      decreases |iter.inner|
    {
      var next := iter.Next();
      if next.None? { return; }
      SeqAssoc(rows, next.value, iter.Rest());
      rows := rows + next.value;
    }
  }
}
