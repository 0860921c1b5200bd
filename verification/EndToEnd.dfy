/** Results that join the parts: memtable and file, file and query, query and history. */
module EndToEnd {
  import opened Rows
  import opened Machine
  import opened Invariant
  import opened WorkerSteps
  import opened WriterSteps
  import opened RegionCode
  import opened Bloom
  import opened Memtable
  import Query
  import SsTable

  /** In a listing of the newest-version map a linear lookup finds the map's entry. */
  lemma FindIsNewest(rows: seq<Row>, log: seq<Row>, key: Key)
    requires Lists(rows, NewestMap(log))
    ensures SsTable.Find(rows, key) == Newest(log, key)
  {
    SsTable.FindMeans(rows, key);
    if key in NewestMap(log) {
      var r := NewestMap(log)[key];
      assert r in rows;
      NewestMapMeaning(log, key);
      var i :| 0 <= i < |rows| && rows[i] == r;
      SsTable.FindAt(rows, i);
    }
  }

  /** Dropping old versions never drops the highest number. */
  lemma ListingMaxSeq(rows: seq<Row>, log: seq<Row>)
    requires Lists(rows, NewestMap(log))
    ensures MaxSeq(rows) == MaxSeq(log)
  {
    MaxSeqIsMax(rows);
    MaxSeqIsMax(log);
    forall r | r in rows ensures r in log { NewestMapMeaning(log, r.key); }
    if log != [] {
      var top :| top in log && top.seqNo == MaxSeq(log);
      NewestIsLargest(log, top);
      assert NewestMap(log)[top.key] in rows;
    }
  }

  /**
   Flushing a frozen memtable: the file is never refused, answers every lookup as the memtable does, and reports the
   same highest number.
   */
  method FlushFrozen(mem: FrozenColumnar, id: nat, m: nat, k: nat, hash: Hash, readSize: nat)
    returns (sst: SstFile.SSTable?)
    requires mem.Valid() && m >= 1024 && 1 <= k <= 64 && readSize > 0
    modifies mem`cached
    ensures mem.Valid() && sst != null && fresh(sst) && sst.Valid()
    ensures Lists(sst.Rows(), NewestMap(mem.log)) && sst.maxSeq == mem.maxSeq
    ensures forall key :: SsTable.Find(sst.Rows(), key) == Newest(mem.log, key)
  {
    var batches := mem.ToBatches();
    SstFile.OrderedInput(batches);
    sst := SstFile.CreateFromBatches(batches, id, m, k, hash, readSize);
    ListingMaxSeq(sst.Rows(), mem.log);
    forall key ensures SsTable.Find(sst.Rows(), key) == Newest(mem.log, key) {
      FindIsNewest(sst.Rows(), mem.log, key);
    }
  }

  // ---------- Queries ----------

  /** The materialised sources of a running region show the history, from any cutoff on that compaction has not passed. */
  lemma SnapshotShowsHistory(s: State, full: seq<seq<Row>>, cutoff: I64)
    requires Inv(s) && s.process.Up? && s.floor <= cutoff && Snapshot(full, Sources(s.process.live))
    ensures View(NewestMap(s.hist), cutoff) == View(NewestMap(Flatten(full)), cutoff)
    ensures Consistent(RowSet(Flatten(full)), cutoff)
  {
    SourcesRows(s.process.live);
    SnapshotCovers(s.hist, s.floor, Sources(s.process.live), full);
    CoverLater(RowSet(s.hist), RowSet(Flatten(full)), s.floor, cutoff);
    ConsistentLater(RowSet(s.hist), s.floor, cutoff);
    CoverSameView(s.hist, Flatten(full), cutoff);
    ConsistentPart(RowSet(s.hist), RowSet(Flatten(full)), cutoff);
  }

  /**
   A query against a running region answers from the newest version of every row ever made durable, whatever part of the
   materialised sources the pushed-down time range lets it skip, and whatever columns of the files it does not read.
   `all` lists the newest-version map of the whole history.
   */
  lemma QueryAnswersFromHistory(s: State, filters: seq<Query.Expr>, timeCol: string, other: (Query.Expr, Row) -> bool,
                                cutoff: I64, range: Query.TimeRange, p: Bytes -> Bytes, q: Bytes -> Bytes,
                                full: seq<seq<Row>>, kept: seq<Row>, read: seq<Row>, merged: seq<Row>, all: seq<Row>)
    requires Inv(s) && s.process.Up? && s.floor <= cutoff && Query.RangeOf(range, filters, timeCol, cutoff)
    requires Snapshot(full, Sources(s.process.live))
    requires range.ToInclusiveBounds().Some? ==> Query.Prunes(kept, Flatten(full), range.ToInclusiveBounds())
    requires Query.Narrowed(read, kept, p) && forall v :: q(p(v)) == q(v)
    requires Lists(merged, NewestMap(read)) && Lists(all, NewestMap(s.hist))
    ensures var keep := (r: Row) => Query.Wanted(filters, timeCol, other, cutoff, r);
            && Query.Answer(Query.StripInternal(q, merged), keep) == Query.Answer(Query.StripInternal(q, all), keep)
            && forall d: Row | keep(d) :: d in Query.StripInternal(q, merged) <==> Query.Shows(s.hist, q, d)
  {
    var keep := (r: Row) => Query.Wanted(filters, timeCol, other, cutoff, r);
    SnapshotShowsHistory(s, full, cutoff);
    Query.PushdownPreservesAnswer(filters, timeCol, other, cutoff, range, p, q, s.hist, Flatten(full), kept, read, all,
                                  merged);
    forall d: Row | keep(d) ensures d in Query.StripInternal(q, merged) <==> Query.Shows(s.hist, q, d) {
      AnswerShows(s.hist, s.floor, q, keep, Query.StripInternal(q, merged), all, d);
    }
  }

  /** An empty time range: no row passes the filters, so there is nothing to read. */
  lemma EmptyRange(filters: seq<Query.Expr>, timeCol: string, other: (Query.Expr, Row) -> bool, cutoff: I64,
                   range: Query.TimeRange)
    requires Query.RangeOf(range, filters, timeCol, cutoff) && range.ToInclusiveBounds().None?
    ensures forall d: Row :: !Query.Wanted(filters, timeCol, other, cutoff, d)
  {
    forall d: Row ensures !Query.Wanted(filters, timeCol, other, cutoff, d) {
      if Query.Wanted(filters, timeCol, other, cutoff, d) {
        Query.WantedInRange(range, filters, timeCol, other, cutoff, d);
      }
    }
  }

  lemma {:induction false} ListingOf(m: map<Key, Row>) returns (all: seq<Row>)
    requires forall k | k in m :: m[k].key == k
    ensures Lists(all, m)
    decreases m.Keys
  {
    if m == map[] {
      all := [];
    } else {
      KeyOrder();
      var least := Least(m.Keys, KeyLess);
      var rest := ListingOf(m - {least});
      all := [m[least]] + rest;
      forall j | 0 <= j < |rest| ensures KeyLess(least, rest[j].key) { assert rest[j] in rest; }
      forall k | k in m ensures m[k] in all { assert k != least ==> k in m - {least}; }
    }
  }

  lemma ListHistory(hist: seq<Row>) returns (all: seq<Row>)
    ensures Lists(all, NewestMap(hist))
  {
    forall k | k in NewestMap(hist) ensures NewestMap(hist)[k].key == k { NewestMapMeaning(hist, k); }
    all := ListingOf(NewestMap(hist));
  }

  /** Two answers that are equal show the same of every row that the condition keeps. */
  lemma AnswerShows(hist: seq<Row>, floor: I64, q: Bytes -> Bytes, keep: Row -> bool, some: seq<Row>, all: seq<Row>, d: Row)
    requires Query.Answer(some, keep) == Query.Answer(Query.StripInternal(q, all), keep)
    requires Lists(all, NewestMap(hist)) && Consistent(RowSet(hist), floor) && !Expired(d.key, floor) && keep(d)
    ensures d in some <==> Query.Shows(hist, q, d)
  {
    Query.AnswerMembers(some, keep);
    Query.AnswerMembers(Query.StripInternal(q, all), keep);
    Query.StripShows(hist, floor, q, all, d);
  }

  /** What a reader sees of a key in the memtables alone: their newest row, unless it is a tombstone. */
  ghost predicate Lingers(v: Version, q: Bytes -> Bytes, r: Row) {
    var x := Newest(RowsOf([v.active] + Reverse(v.imms)), r.key);
    x.Some? && x.value.value.Some? && r == Row(x.value.key, x.value.seqNo, Some(q(x.value.value.value)))
  }

  /** Outside the bounds that were pushed down, just what lingers in the memtables comes out of the merge. */
  lemma BeyondRange(v: Version, bounds: SsTable.TsRange, p: Bytes -> Bytes, q: Bytes -> Bytes, kept: seq<Row>,
                    read: seq<Row>, merged: seq<Row>, r: Row)
    requires Walk.Beyond(kept, [v.active] + Reverse(v.imms), bounds) && !SsTable.InTs(r.key.ts, bounds)
    requires Query.Narrowed(read, kept, p) && (forall x :: q(p(x)) == q(x)) && Lists(merged, NewestMap(read))
    ensures r in Query.StripInternal(q, merged) <==> Lingers(v, q, r)
  {
    Query.ProjectionIsInvisible(p, q, read, kept, r.key);
    Query.StripMembers(q, merged, r);
    var memory := RowsOf([v.active] + Reverse(v.imms));
    assert Newest(kept, r.key) == Newest(memory, r.key);
    NewestMapMeaning(memory, r.key);
    if Lingers(v, q, r) {
      assert NewestMap(read)[r.key] in merged && Query.Projects(r, NewestMap(read)[r.key], q);
    }
  }

  /** What is merged shows every wanted row as the history has it, and beyond the bounds what lingers. */
  ghost predicate ShowsWanted(region: Region, range: Query.TimeRange, filters: seq<Query.Expr>, timeCol: string,
                              other: (Query.Expr, Row) -> bool, cutoff: I64, q: Bytes -> Bytes, merged: seq<Row>)
    reads region
  {
    && Sorted(merged)
    && (forall d: Row | Query.Wanted(filters, timeCol, other, cutoff, d) ::
          d in Query.StripInternal(q, merged) <==> Query.Shows(region.hist, q, d))
    && (range.ToInclusiveBounds().Some? ==> forall r: Row | !SsTable.InTs(r.key.ts, range.ToInclusiveBounds()) ::
          r in Query.StripInternal(q, merged) <==> Lingers(region.version, q, r))
  }

  lemma MergeShows(region: Region, range: Query.TimeRange, filters: seq<Query.Expr>, timeCol: string,
                   other: (Query.Expr, Row) -> bool, cutoff: I64, p: Bytes -> Bytes, q: Bytes -> Bytes,
                   txns: map<nat, Txn>, full: seq<seq<Row>>, kept: seq<Row>, read: seq<Row>, merged: seq<Row>)
    requires Inv(region.Abs(txns)) && region.floor <= cutoff && Query.RangeOf(range, filters, timeCol, cutoff)
    requires range.ToInclusiveBounds().Some? && Snapshot(full, Sources(region.Abs(txns).process.live))
    requires Query.Prunes(kept, Flatten(full), range.ToInclusiveBounds())
    requires Query.Narrowed(read, kept, p) && (forall v :: q(p(v)) == q(v)) && Lists(merged, NewestMap(read))
    requires Walk.Beyond(kept, [region.version.active] + Reverse(region.version.imms), range.ToInclusiveBounds())
    ensures ShowsWanted(region, range, filters, timeCol, other, cutoff, q, merged)
  {
    var s, v, bounds := region.Abs(txns), region.version, range.ToInclusiveBounds();
    var all := ListHistory(region.hist);
    QueryAnswersFromHistory(s, filters, timeCol, other, cutoff, range, p, q, full, kept, read, merged, all);
    forall r: Row | !SsTable.InTs(r.key.ts, bounds) ensures r in Query.StripInternal(q, merged) <==> Lingers(v, q, r) {
      BeyondRange(v, bounds, p, q, kept, read, merged, r);
    }
  }

  /** The rows to merge for a time range: none if the range is empty, otherwise a snapshot bounded by it. */
  method MergeRange(region: Region, range: Query.TimeRange, p: Bytes -> Bytes, ghost txns: map<nat, Txn>,
                    ghost filters: seq<Query.Expr>, ghost timeCol: string, ghost other: (Query.Expr, Row) -> bool,
                    ghost cutoff: I64, ghost q: Bytes -> Bytes)
    returns (batches: seq<seq<Row>>)
    requires Inv(region.Abs(txns)) && region.floor <= cutoff && Query.RangeOf(range, filters, timeCol, cutoff)
    requires forall v :: q(p(v)) == q(v)
    ensures ShowsWanted(region, range, filters, timeCol, other, cutoff, q, Flatten(batches))
  {
    var bounds := range.ToInclusiveBounds();
    if bounds.None? {
      EmptyRange(filters, timeCol, other, cutoff, range);
      return [];
    }
    var v := region.version;
    forall u | u in v.ssts ensures Sorted(u.rows) { SstSorted(region.Abs(txns), u); }
    var sources := Walk.SnapshotSources(v.active, v.imms, v.ssts, bounds, Some(p));
    ghost var full, kept :| Walk.Taken(sources, full, kept, Sources(region.Abs(txns).process.live), bounds, Some(p))
                            && Walk.Beyond(kept, [v.active] + Reverse(v.imms), bounds);
    var merged := Merge.MergeAll(sources);
    batches := merged.value;
    MergeShows(region, range, filters, timeCol, other, cutoff, p, q, txns, full, kept, Flatten(Merge.Inputs(sources)),
               Flatten(batches));
  }

  /**
   A table scan from end to end: the time range of the filters and of the TTL, a snapshot bounded by it in which memtables
   are materialised whole and files give only the columns asked for, the merge, and the stream that strips tombstones,
   projects and limits. Of the rows that the filters keep and that have not expired it delivers, in key order, each live
   row of the whole history once, with its value reduced to the columns asked for, and nothing else; without filters and
   TTL a limit leaves exactly the first ones. Of what has expired, a scan shows exactly what lingers in the memtables: the
   TTL only prunes files, and nothing filters it again.
   */
  method RunQuery(region: Region, filters: seq<Query.Expr>, timeCol: string, cutoff: Option<I64>,
                  p: Bytes -> Bytes, q: Bytes -> Bytes, limit: Option<nat>,
                  ghost other: (Query.Expr, Row) -> bool, ghost txns: map<nat, Txn>)
    returns (rows: seq<Row>)
    requires Inv(region.Abs(txns)) && region.floor <= Bound(cutoff)
    requires forall v :: q(p(v)) == q(v)
    ensures Sorted(rows) && (limit.Some? ==> |rows| <= limit.value)
    ensures limit.None? ==> forall d: Row | Query.Wanted(filters, timeCol, other, Bound(cutoff), d) ::
              d in rows <==> Query.Shows(region.hist, q, d)
    ensures filters == [] && cutoff.None? ==> FirstShown(rows, region.hist, q, limit)
    ensures filters == [] && cutoff.None? && limit.None? && (forall v :: q(v) == v) ==> AllLive(rows, region.hist)
    ensures filters == [] && limit.None? ==>
              forall r: Row | Expired(r.key, Bound(cutoff)) :: r in rows <==> Lingers(region.version, q, r)
  {
    var wanted := Query.ExtractTimeRange(filters, timeCol);
    var range := Query.ClampRange(wanted, cutoff);
    var batches := MergeRange(region, range, p, txns, filters, timeCol, other, Bound(cutoff), q);
    if filters == [] { ExpiredOutside(range, timeCol, Bound(cutoff)); }
    rows := Query.Deliver(batches, q, limit);
    if filters == [] && cutoff.None? {
      FirstIsShown(region, range, timeCol, other, q, Flatten(batches), rows, limit);
    }
  }

  /** The first live rows of the history, in key order: all of them, or as many as the limit says. */
  ghost predicate FirstShown(rows: seq<Row>, hist: seq<Row>, q: Bytes -> Bytes, limit: Option<nat>) {
    && (forall d | d in rows :: Query.Shows(hist, q, d))
    && forall d | Query.Shows(hist, q, d) && d !in rows ::
         limit.Some? && |rows| == limit.value && forall e | e in rows :: KeyLess(e.key, d.key)
  }

  /** With all columns: the live rows themselves. */
  ghost predicate AllLive(rows: seq<Row>, hist: seq<Row>) {
    forall r :: r in rows <==> r.value.Some? && IsNewest(RowSet(hist), r)
  }

  /** Without filters and TTL every row is wanted. */
  lemma FirstIsShown(region: Region, range: Query.TimeRange, timeCol: string, other: (Query.Expr, Row) -> bool,
                     q: Bytes -> Bytes, merged: seq<Row>, rows: seq<Row>, limit: Option<nat>)
    requires ShowsWanted(region, range, [], timeCol, other, I64_MIN, q, merged)
    requires Query.FirstOf(rows, Query.StripInternal(q, merged), limit)
    ensures FirstShown(rows, region.hist, q, limit)
    ensures limit.None? && (forall v :: q(v) == v) ==> AllLive(rows, region.hist)
  {
    if forall v :: q(v) == v { ShowsAll(region.hist, q); }
    forall d: Row ensures d in Query.StripInternal(q, merged) <==> Query.Shows(region.hist, q, d) {
      assert Query.Wanted([], timeCol, other, I64_MIN, d);
    }
  }

  lemma ExpiredOutside(range: Query.TimeRange, timeCol: string, cutoff: I64)
    requires Query.RangeOf(range, [], timeCol, cutoff)
    ensures range.ToInclusiveBounds().Some?
    ensures forall k: Key | Expired(k, cutoff) :: !SsTable.InTs(k.ts, range.ToInclusiveBounds())
  {
    assert range.Contains(cutoff);
    forall k: Key | Expired(k, cutoff) ensures !SsTable.InTs(k.ts, range.ToInclusiveBounds()) {
      assert !range.Contains(k.ts);
    }
  }

  /** With all columns the delivered rows are the live rows themselves. */
  lemma ShowsAll(hist: seq<Row>, q: Bytes -> Bytes)
    requires forall v :: q(v) == v
    ensures forall d :: Query.Shows(hist, q, d) <==> d.value.Some? && IsNewest(RowSet(hist), d)
  {
    forall d ensures Query.Shows(hist, q, d) <==> d.value.Some? && IsNewest(RowSet(hist), d) { ShowsRow(hist, q, d); }
  }

  lemma ShowsRow(hist: seq<Row>, q: Bytes -> Bytes, d: Row)
    requires forall v :: q(v) == v
    ensures Query.Shows(hist, q, d) <==> d.value.Some? && IsNewest(RowSet(hist), d)
  {
    assert forall y | y in hist :: y in RowSet(hist);
    if x :| x in hist && x.value.Some? && d == Row(x.key, x.seqNo, Some(q(x.value.value)))
            && forall y | y in hist && y.key == x.key :: y.seqNo <= x.seqNo {
      assert d == x;
    }
    if d.value.Some? && IsNewest(RowSet(hist), d) {
      assert d == Row(d.key, d.seqNo, Some(q(d.value.value)));
    }
  }
}
