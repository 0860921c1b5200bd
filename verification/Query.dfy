/**
 Queries (src/query/predicate.rs, src/query/stream.rs, src/memtable/memtable.rs:846-882): a time range is extracted from
 the filters, the sources are pruned by it, merged, stripped of tombstones, projected and limited.
 */
module Query {
  import opened Rows
  import opened SsTable

  // ---------- The time range of the filters ----------

  datatype Operator = Lt | LtEq | Gt | GtEq | Eq | OtherOp

  datatype Operand = Column(name: string) | TimeLiteral(ts: I64) | OtherOperand

  datatype Expr = Compare(left: Operand, op: Operator, right: Operand) | OtherExpr

  datatype TimeRange = TimeRange(min: Option<I64>, max: Option<I64>) {
    predicate IsEmpty() {
      min.Some? && max.Some? && min.value > max.value
    }

    /** The timestamps from `min` on and up to `max`; a missing bound is none. */
    ghost predicate Contains(ts: int) {
      (min.Some? ==> min.value <= ts) && (max.Some? ==> ts <= max.value)
    }

    /** Both ends, with the ends of the type where there is no bound. */
    function ToInclusiveBounds(): (bounds: Option<(I64, I64)>)
      ensures bounds.None? ==> forall ts: I64 :: !Contains(ts)
      ensures bounds.Some? ==> forall ts: I64 :: Contains(ts) <==> bounds.value.0 <= ts <= bounds.value.1
    {
      if IsEmpty() then None
      else Some((if min.Some? then min.value else I64_MIN, if max.Some? then max.value else I64_MAX))
    }
  }

  function SwapOp(op: Operator): (r: Operator)
    ensures forall a: int, b: int :: Satisfies(a, op, b) <==> Satisfies(b, r, a)
  {
    match op
    case Lt => Gt
    case LtEq => GtEq
    case Gt => Lt
    case GtEq => LtEq
    case other => other
  }

  /** What a comparison means; operators the code does not know are taken to be symmetric. */
  ghost predicate Satisfies(a: int, op: Operator, b: int) {
    match op
    case Lt => a < b
    case LtEq => a <= b
    case Gt => a > b
    case GtEq => a >= b
    case Eq => a == b
    case OtherOp => true
  }

  /** The comparison as a bound: strict ends are taken in. */
  ghost predicate Relaxed(a: int, op: Operator, b: int) {
    match op
    case Lt | LtEq => a <= b
    case Gt | GtEq => a >= b
    case Eq => a == b
    case OtherOp => true
  }

  method ApplyBound(range: TimeRange, op: Operator, ts: I64) returns (range': TimeRange)
    ensures forall t: I64 :: range'.Contains(t) <==> range.Contains(t) && Relaxed(t, op, ts)
  {
    range' := range;
    match op {
      case Gt | GtEq =>
        range' := range'.(min := Some(if range.min.Some? && range.min.value > ts then range.min.value else ts));
      case Lt | LtEq =>
        range' := range'.(max := Some(if range.max.Some? && range.max.value < ts then range.max.value else ts));
      case Eq =>
        range' := range'.(min := Some(if range.min.Some? && range.min.value > ts then range.min.value else ts));
        range' := range'.(max := Some(if range.max.Some? && range.max.value < ts then range.max.value else ts));
      case OtherOp =>
    }
  }

  /** A timestamp that the filter, as a bound, does not rule out: only comparisons of the time column with a literal do. */
  ghost predicate Admits(e: Expr, timeCol: string, ts: int) {
    match e
    case Compare(Column(name), op, TimeLiteral(x)) => name == timeCol ==> Relaxed(ts, op, x)
    case Compare(TimeLiteral(x), op, Column(name)) => name == timeCol ==> Relaxed(x, op, ts)
    case _ => true
  }

  method ApplyPredicate(range: TimeRange, e: Expr, timeCol: string) returns (range': TimeRange)
    ensures forall t: I64 :: range'.Contains(t) <==> range.Contains(t) && Admits(e, timeCol, t)
  {
    if !e.Compare? { return range; }
    var column, ts, op;
    if e.left.Column? && e.right.TimeLiteral? {
      column, ts, op := e.left.name, e.right.ts, e.op;
    } else if e.left.TimeLiteral? && e.right.Column? {
      column, ts, op := e.right.name, e.left.ts, SwapOp(e.op);
    } else {
      return range;
    }
    if column != timeCol { return range; }
    range' := ApplyBound(range, op, ts);
  }

  /** `extract_time_range`: exactly the timestamps that every filter admits. */
  method ExtractTimeRange(filters: seq<Expr>, timeCol: string) returns (range: TimeRange)
    ensures forall t: I64 :: range.Contains(t) <==> forall i | 0 <= i < |filters| :: Admits(filters[i], timeCol, t)
  {
    range := TimeRange(None, None);
    for i := 0 to |filters|
      invariant forall t: I64 :: range.Contains(t) <==> forall j | 0 <= j < i :: Admits(filters[j], timeCol, t)
    {
      range := ApplyPredicate(range, filters[i], timeCol);
    }
  }

  /** The TTL's cutoff as one more lower end. */
  method ClampRange(range: TimeRange, cutoff: Option<I64>) returns (range': TimeRange)
    ensures forall t: I64 :: range'.Contains(t) <==> range.Contains(t) && Bound(cutoff) <= t
  {
    range' := range;
    if cutoff.Some? {
      var c := cutoff.value;
      range' := range.(min := Some(if range.min.Some? && range.min.value > c then range.min.value else c));
    }
  }

  /** What a filter says about a row: comparisons of the time column are fixed, the rest is up to `other`. */
  ghost predicate Holds(e: Expr, timeCol: string, other: (Expr, Row) -> bool, r: Row) {
    if e.Compare? && e.left.Column? && e.right.TimeLiteral? && e.left.name == timeCol && e.op != OtherOp
      then Satisfies(r.key.ts, e.op, e.right.ts)
    else if e.Compare? && e.left.TimeLiteral? && e.right.Column? && e.right.name == timeCol && e.op != OtherOp
      then Satisfies(e.left.ts, e.op, r.key.ts)
    else other(e, r)
  }

  /** A row that a filter keeps has a timestamp the filter admits. */
  lemma HoldsAdmits(e: Expr, timeCol: string, other: (Expr, Row) -> bool, r: Row)
    requires Holds(e, timeCol, other, r)
    ensures Admits(e, timeCol, r.key.ts)
  {
  }

  ghost predicate AllHold(filters: seq<Expr>, timeCol: string, other: (Expr, Row) -> bool, r: Row) {
    forall i | 0 <= i < |filters| :: Holds(filters[i], timeCol, other, r)
  }

  // ---------- Pruned sources ----------

  /** Nothing foreign, and every row inside the bounds. */
  ghost predicate Prunes(pruned: seq<Row>, rows: seq<Row>, bounds: Option<(I64, I64)>) {
    && (forall r | r in pruned :: r in rows)
    && (forall r | r in rows && InTs(r.key.ts, bounds) :: r in pruned)
  }

  /** Bounds that cover every timestamp are no bounds. */
  function Effective(bounds: Option<(I64, I64)>): Option<(I64, I64)> {
    if bounds == Some((I64_MIN, I64_MAX)) then None else bounds
  }

  lemma BetweenEnds(rows: seq<Row>, r: Row)
    requires Sorted(rows) && r in rows
    ensures KeyLeq(rows[0].key, r.key) && KeyLeq(r.key, rows[|rows| - 1].key)
  {
    var i :| 0 <= i < |rows| && rows[i] == r;
  }

  lemma PrunesMore(pruned: seq<Row>, rows: seq<Row>, more: seq<Row>, rest: seq<Row>, bounds: Option<(I64, I64)>)
    requires Prunes(pruned, rows, bounds) && Prunes(more, rest, bounds)
    ensures Prunes(pruned + more, rows + rest, bounds)
  {
  }

  // ---------- Projection ----------

  /** `q` is `r` with its value, if it has one, reduced by `p`: key, number and tombstones stay. */
  ghost predicate Projects(q: Row, r: Row, p: Bytes -> Bytes) {
    && q.key == r.key && q.seqNo == r.seqNo
    && (if r.value.Some? then q.value == Some(p(r.value.value)) else q.value == None)
  }

  /** Columns that are not read come back as nulls. */
  function Project(p: Bytes -> Bytes, r: Row): (q: Row)
    ensures Projects(q, r, p)
  {
    r.(value := if r.value.Some? then Some(p(r.value.value)) else None)
  }

  function ProjectAll(p: Bytes -> Bytes, rows: seq<Row>): (r: seq<Row>)
    ensures |r| == |rows|
  {
    seq(|rows|, i requires 0 <= i < |rows| => Project(p, rows[i]))
  }

  /** Both maps have a row of the key, of one number and with values that `p` does not tell apart, or both have none. */
  ghost predicate AgreeAt(p: Bytes -> Bytes, a: map<Key, Row>, b: map<Key, Row>, k: Key) {
    (k in a <==> k in b) && (k in a ==> SameUnder(p, a[k], b[k]))
  }

  ghost predicate SameUnder(p: Bytes -> Bytes, x: Row, y: Row) {
    && x.key == y.key && x.seqNo == y.seqNo && (x.value.Some? <==> y.value.Some?)
    && (x.value.Some? ==> p(x.value.value) == p(y.value.value))
  }

  /** Merging projected rows is projecting the merged rows. */
  lemma {:induction false} ProjectionCommutes(p: Bytes -> Bytes, rows: seq<Row>)
    ensures NewestMap(ProjectAll(p, rows)).Keys == NewestMap(rows).Keys
    ensures forall k | k in NewestMap(rows) :: Projects(NewestMap(ProjectAll(p, rows))[k], NewestMap(rows)[k], p)
  {
    if rows != [] {
      var n := |rows| - 1;
      ProjectionCommutes(p, rows[..n]);
      assert ProjectAll(p, rows)[..n] == ProjectAll(p, rows[..n]);
    }
  }

  /** Row by row either the whole row, as a memtable hands it over, or the columns that `p` keeps, as a file is read. */
  ghost predicate Narrowed(read: seq<Row>, rows: seq<Row>, p: Bytes -> Bytes) {
    |read| == |rows| && forall i | 0 <= i < |rows| :: read[i] == rows[i] || Projects(read[i], rows[i], p)
  }

  /** So reading fewer columns from some sources gives the same final columns, if `q` only looks at what `p` keeps. */
  lemma ProjectionIsInvisible(p: Bytes -> Bytes, q: Bytes -> Bytes, read: seq<Row>, rows: seq<Row>, k: Key)
    requires (forall v :: q(p(v)) == q(v)) && Narrowed(read, rows, p)
    ensures AgreeAt(q, NewestMap(read), NewestMap(rows), k)
  {
    assert ProjectAll(q, read) == ProjectAll(q, rows);
    ProjectionCommutes(q, read);
    ProjectionCommutes(q, rows);
  }

  // ---------- The answer ----------

  /** `d` is what a reader gets of a live row: the newest of its key, no tombstone, its value reduced by `q`. */
  ghost predicate Shows(hist: seq<Row>, q: Bytes -> Bytes, d: Row) {
    exists x :: x in hist && x.value.Some? && d == Row(x.key, x.seqNo, Some(q(x.value.value)))
                && forall y | y in hist && y.key == x.key :: y.seqNo <= x.seqNo
  }

  /** Tombstones removed, then projected. */
  function StripInternal(p: Bytes -> Bytes, batch: seq<Row>): seq<Row> {
    if batch == [] then []
    else (if batch[0].value.Some? then [Project(p, batch[0])] else []) + StripInternal(p, batch[1..])
  }

  lemma {:induction false} StripConcat(p: Bytes -> Bytes, a: seq<Row>, b: seq<Row>)
    ensures StripInternal(p, a + b) == StripInternal(p, a) + StripInternal(p, b)
  {
    if a == [] {
      assert a + b == b;
    } else {
      var first := if a[0].value.Some? then [Project(p, a[0])] else [];
      assert (a + b)[1..] == a[1..] + b;
      StripConcat(p, a[1..], b);
      SeqAssoc(first, StripInternal(p, a[1..]), StripInternal(p, b));
    }
  }

  lemma {:induction false} StripMembers(p: Bytes -> Bytes, rows: seq<Row>, r: Row)
    ensures r in StripInternal(p, rows) <==> exists x :: x in rows && x.value.Some? && Projects(r, x, p)
  {
    if rows != [] {
      assert rows == [rows[0]] + rows[1..];
      StripMembers(p, rows[1..], r);
    }
  }

  /** Stripping a listing of the newest-version map leaves what a reader is to get. */
  lemma StripShows(hist: seq<Row>, floor: I64, q: Bytes -> Bytes, all: seq<Row>, d: Row)
    requires Lists(all, NewestMap(hist)) && Consistent(RowSet(hist), floor) && !Expired(d.key, floor)
    ensures d in StripInternal(q, all) <==> Shows(hist, q, d)
  {
    StripMembers(q, all, d);
    if x :| x in all && x.value.Some? && Projects(d, x, q) {
      MapEntryIsNewest(hist, x.key);
      assert x in RowSet(hist) && forall y | y in hist :: y in RowSet(hist);
    }
    if x :| x in hist && x.value.Some? && d == Row(x.key, x.seqNo, Some(q(x.value.value)))
            && forall y | y in hist && y.key == x.key :: y.seqNo <= x.seqNo {
      assert IsNewest(RowSet(hist), x);
      NewestIsMapEntry(hist, x, floor);
      assert x in all && Projects(d, x, q);
    }
  }

  lemma {:induction false} StripSorted(p: Bytes -> Bytes, rows: seq<Row>)
    requires Sorted(rows)
    ensures Sorted(StripInternal(p, rows))
  {
    if rows != [] {
      StripSorted(p, rows[1..]);
      var rest := StripInternal(p, rows[1..]);
      forall j | 0 <= j < |rest| ensures KeyLess(rows[0].key, rest[j].key) {
        StripMembers(p, rows[1..], rest[j]);
        var x :| x in rows[1..] && Projects(rest[j], x, p);
        var i :| 0 <= i < |rows| - 1 && rows[1..][i] == x;
        assert KeyLess(rows[0].key, rows[i + 1].key);
      }
    }
  }

  /** The rows that a condition on the final columns keeps, in order. */
  function Answer(rows: seq<Row>, keep: Row -> bool): seq<Row> {
    if rows == [] then []
    else (if keep(rows[0]) then [rows[0]] else []) + Answer(rows[1..], keep)
  }

  lemma {:induction false} AnswerMembers(rows: seq<Row>, keep: Row -> bool)
    ensures forall r :: r in Answer(rows, keep) <==> r in rows && keep(r)
  {
    if rows != [] {
      assert rows == [rows[0]] + rows[1..];
      AnswerMembers(rows[1..], keep);
    }
  }

  lemma {:induction false} AnswerSorted(rows: seq<Row>, keep: Row -> bool)
    requires Sorted(rows)
    ensures Sorted(Answer(rows, keep))
  {
    if rows != [] {
      AnswerSorted(rows[1..], keep);
      AnswerMembers(rows[1..], keep);
      var rest := Answer(rows[1..], keep);
      forall j | 0 <= j < |rest| ensures KeyLess(rows[0].key, rest[j].key) {
        assert rest[j] in rest;
        var i :| 0 <= i < |rows| - 1 && rows[1..][i] == rest[j];
        assert KeyLess(rows[0].key, rows[i + 1].key);
      }
    }
  }

  lemma AnswerRow(q: Bytes -> Bytes, keep: Row -> bool, a: seq<Row>, ma: map<Key, Row>, b: seq<Row>, mb: map<Key, Row>,
                  r: Row)
    requires Lists(a, ma) && Lists(b, mb) && AgreeAt(q, ma, mb, r.key) && r in Answer(StripInternal(q, a), keep)
    ensures r in Answer(StripInternal(q, b), keep)
  {
    AnswerMembers(StripInternal(q, a), keep);
    AnswerMembers(StripInternal(q, b), keep);
    StripMembers(q, a, r);
    StripMembers(q, b, r);
    var x :| x in a && x.value.Some? && Projects(r, x, q);
    assert ma[r.key] == x && mb[r.key] in b && Projects(r, mb[r.key], q);
  }

  /** Two listings answer alike, row by row, if their maps agree on every key that the condition can keep. */
  lemma SameAnswer(q: Bytes -> Bytes, keep: Row -> bool, a: seq<Row>, ma: map<Key, Row>, b: seq<Row>, mb: map<Key, Row>)
    requires Lists(a, ma) && Lists(b, mb) && forall r | keep(r) :: AgreeAt(q, ma, mb, r.key)
    ensures Answer(StripInternal(q, a), keep) == Answer(StripInternal(q, b), keep)
  {
    StripSorted(q, a);
    StripSorted(q, b);
    AnswerSorted(StripInternal(q, a), keep);
    AnswerSorted(StripInternal(q, b), keep);
    AnswerMembers(StripInternal(q, a), keep);
    AnswerMembers(StripInternal(q, b), keep);
    forall r ensures r in Answer(StripInternal(q, a), keep) <==> r in Answer(StripInternal(q, b), keep) {
      if r in Answer(StripInternal(q, a), keep) { AnswerRow(q, keep, a, ma, b, mb, r); }
      if r in Answer(StripInternal(q, b), keep) { AnswerRow(q, keep, b, mb, a, ma, r); }
    }
    SortedUnique(Answer(StripInternal(q, a), keep), Answer(StripInternal(q, b), keep));
  }

  /** Pruning keeps either all versions of a key or only versions of keys outside the bounds. */
  lemma PrunedNewest(pruned: seq<Row>, rows: seq<Row>, bounds: Option<(I64, I64)>, floor: I64, k: Key)
    requires Consistent(RowSet(rows), floor) && Prunes(pruned, rows, bounds) && InTs(k.ts, bounds) && !Expired(k, floor)
    ensures Newest(pruned, k) == Newest(rows, k)
  {
    if k in NewestMap(rows) {
      MapEntryIsNewest(rows, k);
      var r := NewestMap(rows)[k];
      assert RowSet(pruned) <= RowSet(rows);
      assert IsNewest(RowSet(pruned), r);
      NewestIsMapEntry(pruned, r, floor);
    }
    if k in NewestMap(pruned) {
      MapEntryIsNewest(pruned, k);
      NewestIsLargest(rows, NewestMap(pruned)[k]);
    }
  }

  /** The rows that every filter keeps and that have not expired. */
  ghost predicate Wanted(filters: seq<Expr>, timeCol: string, other: (Expr, Row) -> bool, cutoff: I64, r: Row) {
    AllHold(filters, timeCol, other, r) && !Expired(r.key, cutoff)
  }

  /** The bounds that are pushed down admit exactly the timestamps that every filter and the cutoff admit. */
  ghost predicate RangeOf(range: TimeRange, filters: seq<Expr>, timeCol: string, cutoff: I64) {
    forall t: I64 :: range.Contains(t) <==> cutoff <= t && forall i | 0 <= i < |filters| :: Admits(filters[i], timeCol, t)
  }

  lemma WantedInRange(range: TimeRange, filters: seq<Expr>, timeCol: string, other: (Expr, Row) -> bool, cutoff: I64, r: Row)
    requires RangeOf(range, filters, timeCol, cutoff) && Wanted(filters, timeCol, other, cutoff, r)
    ensures range.ToInclusiveBounds().Some? && InTs(r.key.ts, range.ToInclusiveBounds())
  {
    forall i | 0 <= i < |filters| ensures Admits(filters[i], timeCol, r.key.ts) {
      HoldsAdmits(filters[i], timeCol, other, r);
    }
    assert range.Contains(r.key.ts);
  }

  lemma AgreeThrough(q: Bytes -> Bytes, read: seq<Row>, pruned: seq<Row>, whole: seq<Row>, k: Key)
    requires AgreeAt(q, NewestMap(read), NewestMap(pruned), k) && Newest(pruned, k) == Newest(whole, k)
    ensures AgreeAt(q, NewestMap(read), NewestMap(whole), k)
  {
  }

  /**
   Pushing the time range and the projection down changes nothing once the filters are applied again: the merge of what
   was read and the merge of everything answer with the same rows in the same order. `whole` may differ from the rows of
   the sources in what has expired.
   */
  lemma PushdownPreservesAnswer(filters: seq<Expr>, timeCol: string, other: (Expr, Row) -> bool, cutoff: I64,
                                range: TimeRange, p: Bytes -> Bytes, q: Bytes -> Bytes, whole: seq<Row>,
                                rows: seq<Row>, pruned: seq<Row>, read: seq<Row>, all: seq<Row>, merged: seq<Row>)
    requires Lists(all, NewestMap(whole)) && Lists(merged, NewestMap(read))
    requires View(NewestMap(whole), cutoff) == View(NewestMap(rows), cutoff) && Consistent(RowSet(rows), cutoff)
    requires RangeOf(range, filters, timeCol, cutoff)
    requires range.ToInclusiveBounds().Some? ==> Prunes(pruned, rows, range.ToInclusiveBounds())
    requires Narrowed(read, pruned, p) && forall v :: q(p(v)) == q(v)
    ensures var keep := (r: Row) => Wanted(filters, timeCol, other, cutoff, r);
            Answer(StripInternal(q, merged), keep) == Answer(StripInternal(q, all), keep)
  {
    var keep := (r: Row) => Wanted(filters, timeCol, other, cutoff, r);
    forall r | keep(r) ensures AgreeAt(q, NewestMap(read), NewestMap(whole), r.key) {
      WantedInRange(range, filters, timeCol, other, cutoff, r);
      PrunedNewest(pruned, rows, range.ToInclusiveBounds(), cutoff, r.key);
      ProjectionIsInvisible(p, q, read, pruned, r.key);
      SameViewNewest(whole, rows, cutoff, r.key);
      AgreeThrough(q, read, pruned, whole, r.key);
    }
    SameAnswer(q, keep, merged, NewestMap(read), all, NewestMap(whole));
  }

  // ---------- The result stream ----------

  function Take(rows: seq<Row>, n: nat): seq<Row> {
    if |rows| <= n then rows else rows[..n]
  }

  function Limited(rows: seq<Row>, limit: Option<nat>, emitted: nat): seq<Row>
    requires limit.Some? ==> emitted <= limit.value
  {
    if limit.None? then rows else Take(rows, limit.value - emitted)
  }

  /** What a limit leaves: not more rows than it says, and, if that cut some off, just that many, the first ones. */
  ghost predicate FirstOf(rows: seq<Row>, all: seq<Row>, limit: Option<nat>) {
    && Sorted(rows) && (forall r | r in rows :: r in all)
    && (limit.Some? ==> |rows| <= limit.value)
    && forall r | r in all && r !in rows :: limit.Some? && |rows| == limit.value && forall s | s in rows :: KeyLess(s.key, r.key)
  }

  lemma LimitedIsFirst(all: seq<Row>, limit: Option<nat>)
    requires Sorted(all)
    ensures FirstOf(Limited(all, limit, 0), all, limit)
  {
    var rows := Limited(all, limit, 0);
    forall r | r in all && r !in rows
      ensures limit.Some? && |rows| == limit.value && forall s | s in rows :: KeyLess(s.key, r.key)
    {
      var i :| 0 <= i < |all| && all[i] == r;
      assert forall j | 0 <= j < |rows| :: all[j] == rows[j] && all[j] in rows;
    }
  }

  lemma NoRows(a: seq<Row>, b: seq<Row>)
    ensures |a| == 0 ==> a + b == b
  {
  }

  lemma TakeSplit(a: seq<Row>, b: seq<Row>, n: nat)
    ensures |a| >= n ==> Take(a + b, n) == a[..n] + []
    ensures |a| < n ==> Take(a + b, n) == a + Take(b, n - |a|)
  {
  }

  class LSMStream {
    const projection: Bytes -> Bytes
    const limit: Option<nat>
    var merge: seq<seq<Row>>          // the batches the merge still has to deliver
    var current: Option<seq<Row>>
    var emitted: nat
    var finished: bool

    ghost predicate Valid()
      reads this
    {
      && (current.Some? ==> current.value != [] || limit == Some(0))
      && (limit.Some? ==> emitted <= limit.value)
      && (limit.Some? && limit.value > 0 && !finished ==> emitted < limit.value)
    }

    /** The live rows of the merge, up to what is left of the limit. */
    ghost function Tail(): seq<Row>
      reads this
      requires Valid()
    {
      if finished then [] else Limited(StripInternal(projection, Flatten(merge)), limit, emitted)
    }

    /** The rows still to come: the batch at hand, then the tail. */
    ghost function Rest(): seq<Row>
      reads this
      requires Valid()
    {
      if current.Some? then current.value + Tail() else Tail()
    }

    /** Bounds the number of batches still to come. */
    ghost function Steps(): nat
      reads this
    {
      |merge| + if current.Some? then 1 else 0
    }

    constructor (merge: seq<seq<Row>>, projection: Bytes -> Bytes, limit: Option<nat>)
      ensures Valid()
      ensures Rest() == Limited(StripInternal(projection, Flatten(merge)), limit, 0)
    {
      this.merge, this.projection, this.limit := merge, projection, limit;
      current, emitted, finished := None, 0, false;
    }

    /** The next batch. Only a limit of zero can make it empty. */
    method PollNext() returns (next: Option<seq<Row>>)
      requires Valid()
      modifies this
      ensures Valid()
      ensures next.Some? ==> old(Rest()) == next.value + Rest() && (next.value != [] || limit == Some(0))
      ensures next.None? ==> old(Rest()) == [] && Rest() == []
      ensures next.Some? ==> Steps() < old(Steps())
    {
      if current.Some? {
        next := current;
        current := None;
        return;
      }
      var more := Refill();
      if more {
        next := current;
        current := None;
      } else {
        next := None;
      }
    }

    method Refill() returns (more: bool)
      requires Valid() && current.None?
      modifies this
      ensures Valid() && Rest() == old(Rest())
      ensures more <==> current.Some?
      ensures !more ==> Rest() == []
      ensures more ==> |merge| < |old(merge)|
    {
      if finished || current.Some? {
        return !finished && !current.Some?;
      }
      while merge != []
        invariant Valid() && current.None? && !finished && Rest() == old(Rest()) && |merge| <= |old(merge)|
        decreases |merge|
      {
        var internal, rest := merge[0], merge[1..];
        StripConcat(projection, internal, Flatten(rest));
        var projected := StripInternal(projection, internal);
        merge := rest;
        NoRows(projected, StripInternal(projection, Flatten(rest)));
        if |projected| == 0 {
          continue;
        }
        Hold(projected);
        return true;
      }
      return false;
    }

    /** Keeps a batch for delivery, cut at the limit. */
    method Hold(projected: seq<Row>)
      requires Valid() && current.None? && !finished && projected != []
      modifies `current, `emitted, `finished
      ensures Valid() && current.Some?
      ensures Rest() == Limited(projected + StripInternal(projection, Flatten(merge)), limit, old(emitted))
    {
      ghost var tail := StripInternal(projection, Flatten(merge));
      if limit.Some? {
        var remaining := limit.value - emitted;
        TakeSplit(projected, tail, remaining);
        if |projected| >= remaining {
          var sliced := projected[..remaining];
          emitted := emitted + remaining;
          current := Some(sliced);
          finished := true;
          return;
        }
        emitted := emitted + |projected|;
      }
      current := Some(projected);
    }
  }

  /** Draining the stream, as the query engine does. */
  method Collect(stream: LSMStream) returns (rows: seq<Row>)
    requires stream.Valid()
    modifies stream
    ensures rows == old(stream.Rest())
  {
    rows := [];
    ghost var whole := stream.Rest();
    while true
      invariant stream.Valid() && whole == rows + stream.Rest()
      decreases stream.Steps()
    {
      var next := stream.PollNext();
      if next.None? {
        SeqAssoc(rows, [], []);
        return;
      }
      SeqAssoc(rows, next.value, stream.Rest());
      rows := rows + next.value;
    }
  }

  /** The whole stream over the batches of a merge: the live rows, reduced to the final columns, the first ones of them. */
  method Deliver(batches: seq<seq<Row>>, projection: Bytes -> Bytes, limit: Option<nat>) returns (rows: seq<Row>)
    requires Sorted(Flatten(batches))
    ensures FirstOf(rows, StripInternal(projection, Flatten(batches)), limit)
    ensures limit.None? ==> rows == StripInternal(projection, Flatten(batches))
  {
    var stream := new LSMStream(batches, projection, limit);
    StripSorted(projection, Flatten(batches));
    LimitedIsFirst(StripInternal(projection, Flatten(batches)), limit);
    rows := Collect(stream);
  }
}
