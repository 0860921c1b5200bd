/** What repeated compaction does to the list of SSTs (src/memtable/memtable.rs): windows, progress and termination. */
module Compaction {
  import opened Rows
  import opened Machine
  import opened WorkerSteps

  /** The SSTs after an effective compaction of window `w`; a merge that leaves no rows leaves no file. */
  function Compacted(ts: seq<Table>, window: int, w: int, out: Table): seq<Table> {
    Without(ts, Ids(Group(ts, window, w))) + if out.rows == [] then [] else [out]
  }

  /** `out` is a possible output: the group's newest rows from the cutoff on, under a new id. */
  ghost predicate Output(ts: seq<Table>, window: int, threshold: nat, w: int, cutoff: I64, out: Table) {
    && Chosen(ts, window, threshold, w)
    && Lists(out.rows, NewestMap(Unexpired(RowsOf(Group(ts, window, w)), cutoff)))
    && forall t | t in ts :: t.id < out.id
  }

  // ---------- The smallest timestamp ----------

  lemma {:induction false} MinTsMeans(rows: seq<Row>) returns (low: Row)
    requires rows != []
    ensures low in rows && low.key.ts == MinTs(rows)
    ensures forall r | r in rows :: MinTs(rows) <= r.key.ts
  {
    low := rows[0];
    if |rows| > 1 {
      assert rows == [rows[0]] + rows[1..];
      var rest := MinTsMeans(rows[1..]);
      if rest.key.ts < low.key.ts { low := rest; }
    }
  }

  lemma OutputHasMin(group: seq<Table>, out: seq<Row>, u: Table)
    requires u in group && u.rows != [] && Lists(out, NewestMap(RowsOf(group))) && out != []
    ensures MinTs(out) <= MinTs(u.rows)
  {
    var r := MinTsMeans(u.rows);
    var low := MinTsMeans(out);
    RowsOfMembers(group);
    assert r in RowSet(RowsOf(group));
    NewestIsLargest(RowsOf(group), r);
    var kept := NewestMap(RowsOf(group))[r.key];
    NewestMapMeaning(RowsOf(group), r.key);
    assert kept in out;
  }

  /** Merging keeps the group's smallest timestamp. */
  lemma OutputMinTs(group: seq<Table>, out: seq<Row>) returns (t: Table)
    requires group != [] && (forall u | u in group :: u.rows != []) && Lists(out, NewestMap(RowsOf(group)))
    ensures out != [] && t in group && MinTs(t.rows) == MinTs(out)
    ensures forall u | u in group :: MinTs(out) <= MinTs(u.rows)
  {
    var rows := RowsOf(group);
    RowsOfMembers(group);
    assert group[0] in group && group[0].rows[0] in RowSet(rows);
    NewestIsLargest(rows, group[0].rows[0]);
    var low := MinTsMeans(out);
    NewestMapMeaning(rows, low.key);
    assert low in RowSet(rows);
    t :| t in group && low in t.rows;
    forall u | u in group ensures MinTs(out) <= MinTs(u.rows) {
      OutputHasMin(group, out, u);
    }
    var lowest := MinTsMeans(t.rows);
  }

  /** A smaller number is in no later window, whether it is negative or not. */
  lemma WindowsOrdered(a: int, b: int, size: int)
    requires a <= b && size >= 1
    ensures a / size <= b / size
  {
    if a / size > b / size {
      assert a == size * (a / size) + a % size && b == size * (b / size) + b % size;
      assert size * (a / size) >= size * (b / size + 1) by { Products(size, a / size, b / size + 1); }
    }
  }

  lemma Products(n: int, a: int, b: int)
    requires n >= 1 && a >= b
    ensures n * a >= n * b
  {
  }

  lemma GroupWindow(ts: seq<Table>, window: int, w: int, r: Row)
    requires r in RowsOf(Group(ts, window, w))
    ensures w <= r.key.ts / (if window < 1 then 1 else window)
  {
    var group := Group(ts, window, w);
    GroupMembers(ts, window, w);
    RowsOfMembers(group);
    assert r in RowSet(RowsOf(group));
    var t :| t in group && r in t.rows;
    var low := MinTsMeans(t.rows);
    WindowsOrdered(MinTs(t.rows), r.key.ts, if window < 1 then 1 else window);
  }

  /** So the output falls in the group's own window; only expiry can move it, and only to a later one. */
  lemma OutputWindow(ts: seq<Table>, window: int, threshold: nat, w: int, cutoff: I64, out: Table)
    requires Output(ts, window, threshold, w, cutoff, out)
    ensures out.rows != [] ==> WindowOf(out, window) >= w
    ensures cutoff == I64_MIN ==> out.rows != [] && WindowOf(out, window) == w
  {
    var rows := RowsOf(Group(ts, window, w));
    GroupMembers(ts, window, w);
    UnexpiredMembers(rows, cutoff);
    if out.rows != [] {
      var low := MinTsMeans(out.rows);
      NewestMapMeaning(Unexpired(rows, cutoff), low.key);
      GroupWindow(ts, window, w, low);
    }
    if cutoff == I64_MIN {
      UnexpiredAll(rows);
      var t := OutputMinTs(Group(ts, window, w), out.rows);
      assert WindowOf(t, window) == w;
    }
  }

  // ---------- Windows in terms of time ----------

  /** The window size as the configuration is read. */
  ghost function Size(window: int): int {
    if window < 1 then 1 else window
  }

  /** The table's smallest timestamp lies in the `w`-th interval of this size. */
  ghost predicate StartsIn(t: Table, w: int, size: int) {
    && (forall r | r in t.rows :: w * size <= r.key.ts)
    && exists r :: r in t.rows && r.key.ts < w * size + size
  }

  lemma QuotientIff(m: int, size: int, w: int)
    requires size >= 1
    ensures m / size == w <==> w * size <= m < w * size + size
  {
    var q, r := m / size, m % size;
    assert m == size * q + r && 0 <= r < size;
    if q < w { Products(size, w, q + 1); }
    if q > w { Products(size, q, w + 1); }
  }

  /** What the quotient means: tables share a window exactly if they start in the same interval. */
  lemma WindowMeans(t: Table, window: int, w: int)
    requires t.rows != []
    ensures WindowOf(t, window) == w <==> StartsIn(t, w, Size(window))
  {
    var low := MinTsMeans(t.rows);
    QuotientIff(MinTs(t.rows), Size(window), w);
  }

  lemma GroupStarts(ts: seq<Table>, window: int, w: int)
    ensures forall t :: t in Group(ts, window, w) <==> t in ts && StartsIn(t, w, Size(window))
  {
    GroupMembers(ts, window, w);
    forall t | t in ts ensures t in Group(ts, window, w) <==> StartsIn(t, w, Size(window)) {
      if t.rows != [] { WindowMeans(t, window, w); }
    }
  }

  /** The places of the tables that start in the `w`-th interval. */
  ghost function Starting(ts: seq<Table>, w: int, size: int): set<nat> {
    set k: nat | k < |ts| && StartsIn(ts[k], w, size)
  }

  lemma StartingSnoc(ts: seq<Table>, t: Table, w: int, size: int)
    ensures Starting(ts + [t], w, size) == Starting(ts, w, size) + if StartsIn(t, w, size) then {|ts|} else {}
  {
    forall k: nat | k < |ts| + 1 ensures (ts + [t])[k] == if k < |ts| then ts[k] else t {}
  }

  lemma {:induction false} GroupCount(ts: seq<Table>, window: int, w: int)
    ensures |Group(ts, window, w)| == |Starting(ts, w, Size(window))|
  {
    if ts == [] {
      assert Starting(ts, w, Size(window)) == {};
    } else {
      var n := |ts| - 1;
      var front, last := ts[..n], ts[n];
      assert ts == front + [last] && [last][1..] == [];
      GroupCount(front, window, w);
      GroupConcat(front, [last], window, w);
      StartingSnoc(front, last, w, Size(window));
      if last.rows != [] { WindowMeans(last, window, w); }
      assert n !in Starting(front, w, Size(window));
    }
  }

  /** So many tables start in this interval that they are merged. */
  ghost predicate Crowded(ts: seq<Table>, w: int, size: int, threshold: nat) {
    Starting(ts, w, size) != {} && |Starting(ts, w, size)| >= threshold
  }

  lemma CrowdedIff(ts: seq<Table>, window: int, w: int, threshold: nat)
    ensures Crowded(ts, w, Size(window), threshold) <==>
              Group(ts, window, w) != [] && |Group(ts, window, w)| >= threshold
  {
    GroupCount(ts, window, w);
    if Starting(ts, w, Size(window)) == {} { assert |Group(ts, window, w)| == 0; }
  }

  /** The chosen window is the earliest interval in which enough tables start. */
  lemma ChosenMeans(ts: seq<Table>, window: int, threshold: nat, w: int)
    ensures Chosen(ts, window, threshold, w) <==>
              && |ts| >= threshold && Crowded(ts, w, Size(window), threshold)
              && forall v | v < w :: !Crowded(ts, v, Size(window), threshold)
  {
    CrowdedIff(ts, window, w, threshold);
    forall v
      ensures Crowded(ts, v, Size(window), threshold) <==>
                Group(ts, window, v) != [] && |Group(ts, window, v)| >= threshold
    {
      CrowdedIff(ts, window, v, threshold);
    }
  }

  /** `out` has, in key order, a newest row of every key with a row from the cutoff on in a table that starts there. */
  ghost predicate MergeOf(out: seq<Row>, ts: seq<Table>, w: int, size: int, cutoff: int) {
    && Sorted(out)
    && (forall r | r in out ::
          && r.key.ts >= cutoff && (exists t :: t in ts && StartsIn(t, w, size) && r in t.rows)
          && forall t, q | t in ts && StartsIn(t, w, size) && q in t.rows && q.key == r.key :: q.seqNo <= r.seqNo)
    && (forall t, q | t in ts && StartsIn(t, w, size) && q in t.rows && q.key.ts >= cutoff ::
          exists r :: r in out && r.key == q.key)
  }

  lemma OutputMerges(ts: seq<Table>, window: int, w: int, cutoff: I64, out: seq<Row>)
    requires Lists(out, NewestMap(Unexpired(RowsOf(Group(ts, window, w)), cutoff)))
    ensures MergeOf(out, ts, w, Size(window), cutoff)
  {
    var group, size := Group(ts, window, w), Size(window);
    var rows := Unexpired(RowsOf(group), cutoff);
    GroupStarts(ts, window, w);
    RowsOfMembers(group);
    UnexpiredMembers(RowsOf(group), cutoff);
    forall t, q | t in ts && StartsIn(t, w, size) && q in t.rows && q.key.ts >= cutoff
      ensures q in rows && exists r :: r in out && r.key == q.key && q.seqNo <= r.seqNo
    {
      assert q in TableRows(group) && q in RowSet(RowsOf(group));
      NewestIsLargest(rows, q);
      NewestMapMeaning(rows, q.key);
      assert NewestMap(rows)[q.key] in out;
    }
    forall r | r in out
      ensures r.key.ts >= cutoff && exists t :: t in ts && StartsIn(t, w, size) && r in t.rows
      ensures forall t, q | t in ts && StartsIn(t, w, size) && q in t.rows && q.key == r.key :: q.seqNo <= r.seqNo
    {
      NewestMapMeaning(rows, r.key);
      assert r in RowSet(RowsOf(group));
      var t :| t in group && r in t.rows;
      forall t, q | t in ts && StartsIn(t, w, size) && q in t.rows && q.key == r.key ensures q.seqNo <= r.seqNo {
        NewestIsLargest(rows, q);
      }
    }
  }

  /**
   One compaction, without a word about groups: the tables that start in one interval, the earliest with enough of them, go
   away and nothing else does; in their place there is at most one table, with the rows that are left of theirs.
   */
  ghost predicate MergesWindow(before: seq<Table>, after: seq<Table>, w: int, size: int, threshold: nat, cutoff: int, id: nat) {
    && |before| >= threshold && Crowded(before, w, size, threshold)
    && (forall v | v < w :: !Crowded(before, v, size, threshold))
    && Ascending(after)
    && (forall t | t in before :: t in after <==> !StartsIn(t, w, size))
    && exists out :: MergeOf(out, before, w, size, cutoff) && OneMore(before, after, id, out)
  }

  ghost predicate OneMore(before: seq<Table>, after: seq<Table>, id: nat, out: seq<Row>) {
    forall t | t !in before :: t in after <==> out != [] && t == Table(id, out)
  }

  lemma CompactedKeeps(ts: seq<Table>, window: int, w: int, out: Table)
    requires Ascending(ts) && forall t | t in ts :: t.id < out.id
    ensures forall t | t in ts :: t in Compacted(ts, window, w, out) <==> !StartsIn(t, w, Size(window))
    ensures OneMore(ts, Compacted(ts, window, w, out), out.id, out.rows)
  {
    var ids := Ids(Group(ts, window, w));
    GroupIds(ts, window, w);
    WithoutMembers(ts, ids);
    forall t | t in ts ensures t in Compacted(ts, window, w, out) <==> !StartsIn(t, w, Size(window)) {
      if t.rows != [] { WindowMeans(t, window, w); }
    }
  }

  lemma CompactedMerges(ts: seq<Table>, window: int, threshold: nat, w: int, cutoff: I64, out: Table)
    requires Ascending(ts) && Output(ts, window, threshold, w, cutoff, out)
    ensures MergesWindow(ts, Compacted(ts, window, w, out), w, Size(window), threshold, cutoff, out.id)
  {
    ChosenMeans(ts, window, threshold, w);
    CompactedWindows(ts, window, threshold, w, cutoff, out);
    OutputMerges(ts, window, w, cutoff, out.rows);
    CompactedKeeps(ts, window, w, out);
  }

  /** So no row of the output is before its interval, and without expiry the output starts in it as well. */
  lemma OutputStarts(ts: seq<Table>, window: int, threshold: nat, w: int, cutoff: I64, out: Table)
    requires Output(ts, window, threshold, w, cutoff, out)
    ensures forall r | r in out.rows :: w * Size(window) <= r.key.ts
    ensures cutoff == I64_MIN ==> StartsIn(out, w, Size(window))
  {
    OutputMerges(ts, window, w, cutoff, out.rows);
    OutputWindow(ts, window, threshold, w, cutoff, out);
    if cutoff == I64_MIN { WindowMeans(out, window, w); }
  }

  // ---------- Progress ----------

  lemma {:induction false} GroupConcat(a: seq<Table>, b: seq<Table>, window: int, w: int)
    ensures Group(a + b, window, w) == Group(a, window, w) + Group(b, window, w)
  {
    if a == [] {
      assert a + b == b;
    } else {
      assert (a + b)[1..] == a[1..] + b;
      GroupConcat(a[1..], b, window, w);
    }
  }

  /** Removing one window's group by id leaves the other windows' groups as they are. */
  lemma {:induction false} GroupWithout(ts: seq<Table>, ids: set<nat>, window: int, w: int, v: int)
    requires forall t | t in ts :: t.id in ids <==> t.rows != [] && WindowOf(t, window) == w
    ensures Group(Without(ts, ids), window, v) == if v == w then [] else Group(ts, window, v)
    ensures |Without(ts, ids)| == |ts| - |Group(ts, window, w)|
  {
    if ts != [] {
      assert ts == [ts[0]] + ts[1..];
      GroupWithout(ts[1..], ids, window, w, v);
      if ts[0].id !in ids {
        var rest := Without(ts[1..], ids);
        assert Without(ts, ids)[1..] == rest;
      }
    }
  }

  lemma GroupIds(ts: seq<Table>, window: int, w: int)
    requires Ascending(ts)
    ensures forall t | t in ts :: t.id in Ids(Group(ts, window, w)) <==> t.rows != [] && WindowOf(t, window) == w
  {
    GroupMembers(ts, window, w);
    forall t | t in ts && t.id in Ids(Group(ts, window, w)) ensures t in Group(ts, window, w) {
      var u :| u in Group(ts, window, w) && u.id == t.id;
      AscendingDistinct(ts, t, u);
    }
  }

  /** The part of a window that the output makes up. */
  function OutputIn(out: Table, window: int, v: int): seq<Table> {
    if out.rows != [] && WindowOf(out, window) == v then [out] else []
  }

  lemma GroupOfOutput(out: Table, window: int, v: int)
    ensures Group(if out.rows == [] then [] else [out], window, v) == OutputIn(out, window, v)
  {
    assert [out][1..] == [];
  }

  /** An effective compaction empties its window, puts its output in, and touches no other table. */
  lemma CompactedWindows(ts: seq<Table>, window: int, threshold: nat, w: int, cutoff: I64, out: Table)
    requires Ascending(ts) && Output(ts, window, threshold, w, cutoff, out)
    ensures var after := Compacted(ts, window, w, out);
            && Ascending(after)
            && |after| == |ts| - |Group(ts, window, w)| + (if out.rows == [] then 0 else 1)
            && forall v :: Group(after, window, v) == (if v == w then [] else Group(ts, window, v)) + OutputIn(out, window, v)
  {
    var ids := Ids(Group(ts, window, w));
    var kept := Without(ts, ids);
    GroupIds(ts, window, w);
    WithoutAscending(ts, ids);
    WithoutMembers(ts, ids);
    AscendingAppend(kept, out);
    SeqAssoc(kept, [], []);
    GroupWithout(ts, ids, window, w, w);
    forall v
      ensures Group(Compacted(ts, window, w, out), window, v)
           == (if v == w then [] else Group(ts, window, v)) + OutputIn(out, window, v)
    {
      GroupWithout(ts, ids, window, w, v);
      GroupConcat(kept, if out.rows == [] then [] else [out], window, v);
      GroupOfOutput(out, window, v);
    }
  }

  /** No window has enough tables left. */
  ghost predicate Quiet(ts: seq<Table>, window: int, threshold: nat) {
    forall w :: Group(ts, window, w) == [] || |Group(ts, window, w)| < threshold
  }

  lemma {:induction false} GroupSize(ts: seq<Table>, window: int, w: int)
    ensures |Group(ts, window, w)| <= |ts|
  {
    if ts != [] { GroupSize(ts[1..], window, w); }
  }

  /** The first full window exists whenever there is a full window at all. */
  lemma {:induction false} FirstWindow(ts: seq<Table>, rest: seq<Table>, window: int, threshold: nat, w: int)
    returns (first: int)
    requires Group(ts, window, w) != [] && |Group(ts, window, w)| >= threshold
    requires forall v | v < w && Group(ts, window, v) != [] && |Group(ts, window, v)| >= threshold ::
               exists t :: t in rest && t.rows != [] && WindowOf(t, window) == v
    ensures Chosen(ts, window, threshold, first)
    decreases |rest|
  {
    GroupSize(ts, window, w);
    if v :| v < w && Group(ts, window, v) != [] && |Group(ts, window, v)| >= threshold {
      var t :| t in rest && t.rows != [] && WindowOf(t, window) == v;
      var i :| 0 <= i < |rest| && rest[i] == t;
      var rest' := rest[..i] + rest[i + 1..];
      forall u | u < v && Group(ts, window, u) != [] && |Group(ts, window, u)| >= threshold
        ensures exists t' :: t' in rest' && t'.rows != [] && WindowOf(t', window) == u
      {
        var t' :| t' in rest && t'.rows != [] && WindowOf(t', window) == u;
        var j :| 0 <= j < |rest| && rest[j] == t';
        assert t' in rest';
      }
      first := FirstWindow(ts, rest', window, threshold, v);
    } else {
      first := w;
    }
  }

  /** The next compaction job has a window to merge. */
  ghost predicate Busy(ts: seq<Table>, window: int, threshold: nat) {
    exists w :: Chosen(ts, window, threshold, w)
  }

  /** Compaction has something to do exactly while some window is full. */
  lemma BusyUnlessQuiet(ts: seq<Table>, window: int, threshold: nat)
    ensures Busy(ts, window, threshold) <==> !Quiet(ts, window, threshold)
  {
    if w :| Group(ts, window, w) != [] && |Group(ts, window, w)| >= threshold {
      forall v | Group(ts, window, v) != []
        ensures exists t :: t in ts && t.rows != [] && WindowOf(t, window) == v
      {
        GroupMembers(ts, window, v);
        assert Group(ts, window, v)[0] in Group(ts, window, v);
      }
      var first := FirstWindow(ts, ts, window, threshold, w);
    }
  }

  /** A history of effective compactions, each starting where the one before it ended. */
  ghost predicate CompactionChain(chain: seq<seq<Table>>, window: int, threshold: nat) {
    && chain != [] && Ascending(chain[0])
    && forall i | 0 <= i < |chain| - 1 :: Compacts(chain[i], chain[i + 1], window, threshold)
  }

  ghost predicate CompactsFrom(a: seq<Table>, b: seq<Table>, window: int, threshold: nat, cutoff: I64) {
    exists w, out :: Output(a, window, threshold, w, cutoff, out) && b == Compacted(a, window, w, out)
  }

  ghost predicate Compacts(a: seq<Table>, b: seq<Table>, window: int, threshold: nat) {
    exists cutoff :: CompactsFrom(a, b, window, threshold, cutoff)
  }

  lemma OneCompaction(a: seq<Table>, b: seq<Table>, window: int, threshold: nat)
    requires Ascending(a) && Compacts(a, b, window, threshold) && threshold >= 2
    ensures Ascending(b) && |b| < |a| && (b == [] ==> |a| >= 2)
  {
    var cutoff :| CompactsFrom(a, b, window, threshold, cutoff);
    var w, out :| Output(a, window, threshold, w, cutoff, out) && b == Compacted(a, window, w, out);
    CompactedWindows(a, window, threshold, w, cutoff, out);
    GroupSize(a, window, w);
  }

  lemma {:induction false} ChainShrinks(chain: seq<seq<Table>>, window: int, threshold: nat)
    requires CompactionChain(chain, window, threshold) && threshold >= 2
    ensures Ascending(chain[|chain| - 1])
    ensures |chain| - 1 <= |chain[0]| - |chain[|chain| - 1]|
    ensures |chain| > 1 && chain[|chain| - 1] == [] ==> |chain| - 1 < |chain[0]|
  {
    var n := |chain| - 1;
    if n > 0 {
      var front := chain[..n];
      forall i | 0 <= i < |front| - 1 ensures Compacts(front[i], front[i + 1], window, threshold) {
        assert front[i] == chain[i] && front[i + 1] == chain[i + 1];
      }
      ChainShrinks(front, window, threshold);
      assert Compacts(chain[n - 1], chain[n - 1 + 1], window, threshold);
      OneCompaction(chain[n - 1], chain[n], window, threshold);
    }
  }

  /**
   Repeated compaction ends, whatever cutoffs its rounds use: with a threshold of at least two a chain has fewer
   effective compactions than tables, and one that cannot be extended leaves every window below the threshold.
   */
  lemma CompactionTerminates(chain: seq<seq<Table>>, window: int, threshold: nat)
    requires CompactionChain(chain, window, threshold) && threshold >= 2
    ensures |chain| > 1 ==> |chain| - 1 < |chain[0]|
    ensures !Busy(chain[|chain| - 1], window, threshold) ==> Quiet(chain[|chain| - 1], window, threshold)
  {
    ChainShrinks(chain, window, threshold);
    BusyUnlessQuiet(chain[|chain| - 1], window, threshold);
  }

  /** With a smaller threshold the same window stays full until it expires: each round leaves it one table again. */
  lemma NoProgressBelowTwo(ts: seq<Table>, window: int, threshold: nat, w: int, out: Table)
    requires Ascending(ts) && Output(ts, window, threshold, w, I64_MIN, out) && threshold < 2
    ensures !Quiet(Compacted(ts, window, w, out), window, threshold)
  {
    CompactedWindows(ts, window, threshold, w, I64_MIN, out);
    OutputWindow(ts, window, threshold, w, I64_MIN, out);
    assert Group(Compacted(ts, window, w, out), window, w) == [] + [out];
  }

  // ---------- Choosing a window ----------

  function Picked(ts: seq<Table>, idxs: seq<nat>): (r: seq<Table>)
    requires forall k | 0 <= k < |idxs| :: idxs[k] < |ts|
    ensures |r| == |idxs|
  {
    seq(|idxs|, k requires 0 <= k < |idxs| => ts[idxs[k]])
  }

  function Positions(groups: map<int, seq<nat>>, w: int): seq<nat> {
    if w in groups then groups[w] else []
  }

  /** The ordered map of the grouping loop has an entry for a window with tables, and it holds their positions. */
  ghost predicate GroupIs(ts: seq<Table>, n: nat, window: int, groups: map<int, seq<nat>>, w: int)
    requires n <= |ts|
  {
    && (w in groups <==> Group(ts[..n], window, w) != [])
    && (w in groups ==>
          && (forall k | 0 <= k < |groups[w]| :: groups[w][k] < n)
          && Picked(ts, groups[w]) == Group(ts[..n], window, w))
  }

  ghost predicate GroupsAre(ts: seq<Table>, n: nat, window: int, groups: map<int, seq<nat>>)
    requires n <= |ts|
  {
    forall w :: GroupIs(ts, n, window, groups, w)
  }

  lemma GroupOther(ts: seq<Table>, n: nat, window: int, w: int)
    requires n < |ts| && (ts[n].rows == [] || WindowOf(ts[n], window) != w)
    ensures Group(ts[..n + 1], window, w) == Group(ts[..n], window, w)
  {
    assert ts[..n + 1] == ts[..n] + [ts[n]];
    GroupConcat(ts[..n], [ts[n]], window, w);
    assert [ts[n]][1..] == [] && Group(ts[..n], window, w) + [] == Group(ts[..n], window, w);
  }

  lemma GroupOwn(ts: seq<Table>, n: nat, window: int)
    requires n < |ts| && ts[n].rows != []
    ensures Group(ts[..n + 1], window, WindowOf(ts[n], window)) == Group(ts[..n], window, WindowOf(ts[n], window)) + [ts[n]]
  {
    assert ts[..n + 1] == ts[..n] + [ts[n]];
    GroupConcat(ts[..n], [ts[n]], window, WindowOf(ts[n], window));
    assert [ts[n]][1..] == [];
  }

  lemma PickedSnoc(ts: seq<Table>, idxs: seq<nat>, i: nat)
    requires i < |ts| && forall k | 0 <= k < |idxs| :: idxs[k] < |ts|
    ensures Picked(ts, idxs + [i]) == Picked(ts, idxs) + [ts[i]]
  {
  }

  lemma GroupStays(ts: seq<Table>, n: nat, window: int, groups: map<int, seq<nat>>, groups': map<int, seq<nat>>, w: int)
    requires n < |ts| && GroupIs(ts, n, window, groups, w) && (ts[n].rows == [] || WindowOf(ts[n], window) != w)
    requires (w in groups <==> w in groups') && (w in groups ==> groups[w] == groups'[w])
    ensures GroupIs(ts, n + 1, window, groups', w)
  {
    GroupOther(ts, n, window, w);
  }

  lemma GroupGrows(ts: seq<Table>, n: nat, window: int, groups: map<int, seq<nat>>, groups': map<int, seq<nat>>, w: int)
    requires n < |ts| && GroupIs(ts, n, window, groups, w) && ts[n].rows != [] && WindowOf(ts[n], window) == w
    requires w in groups' && groups'[w] == Positions(groups, w) + [n]
    ensures GroupIs(ts, n + 1, window, groups', w)
  {
    var before := Positions(groups, w);
    GroupOwn(ts, n, window);
    PickedSnoc(ts, before, n);
    assert Picked(ts, before) == Group(ts[..n], window, w);
  }

  lemma GroupsSkip(ts: seq<Table>, n: nat, window: int, groups: map<int, seq<nat>>)
    requires n < |ts| && GroupsAre(ts, n, window, groups) && ts[n].rows == []
    ensures GroupsAre(ts, n + 1, window, groups)
  {
    var m := n + 1;
    forall w ensures GroupIs(ts, m, window, groups, w) {
      assert GroupIs(ts, n, window, groups, w);
      GroupStays(ts, n, window, groups, groups, w);
    }
  }

  lemma GroupsAdd(ts: seq<Table>, n: nat, window: int, groups: map<int, seq<nat>>, w: int)
    requires n < |ts| && GroupsAre(ts, n, window, groups) && ts[n].rows != [] && w == WindowOf(ts[n], window)
    ensures GroupsAre(ts, n + 1, window, groups[w := Positions(groups, w) + [n]])
  {
    var groups' := groups[w := Positions(groups, w) + [n]];
    var m := n + 1;
    forall u ensures GroupIs(ts, m, window, groups', u) {
      assert GroupIs(ts, n, window, groups, u);
      if u == w { GroupGrows(ts, n, window, groups, groups', w); } else { GroupStays(ts, n, window, groups, groups', u); }
    }
  }

  /** An entry of the map has the places, in ascending order, of exactly the tables that start in its interval. */
  ghost predicate PlacesAt(ts: seq<Table>, n: nat, size: int, groups: map<int, seq<nat>>, w: int)
    requires n <= |ts|
  {
    && (w in groups ==> groups[w] != [] && Rising(groups[w]))
    && forall k: nat :: (w in groups && k in groups[w]) <==> k < n && StartsIn(ts[k], w, size)
  }

  ghost predicate PlacesAre(ts: seq<Table>, n: nat, size: int, groups: map<int, seq<nat>>)
    requires n <= |ts|
  {
    forall w :: PlacesAt(ts, n, size, groups, w)
  }

  lemma PlacesSkip(ts: seq<Table>, n: nat, size: int, groups: map<int, seq<nat>>)
    requires n < |ts| && PlacesAre(ts, n, size, groups) && ts[n].rows == []
    ensures PlacesAre(ts, n + 1, size, groups)
  {
    var m := n + 1;
    forall w ensures PlacesAt(ts, m, size, groups, w) { assert PlacesAt(ts, n, size, groups, w); }
  }

  lemma PlacesAdd(ts: seq<Table>, n: nat, window: int, groups: map<int, seq<nat>>, w: int)
    requires n < |ts| && PlacesAre(ts, n, Size(window), groups) && ts[n].rows != [] && w == WindowOf(ts[n], window)
    ensures PlacesAre(ts, n + 1, Size(window), groups[w := Positions(groups, w) + [n]])
  {
    var m, groups' := n + 1, groups[w := Positions(groups, w) + [n]];
    forall u ensures PlacesAt(ts, m, Size(window), groups', u) {
      assert PlacesAt(ts, n, Size(window), groups, u);
      WindowMeans(ts[n], window, u);
      forall i | 0 <= i < |Positions(groups, w)| ensures u == w ==> groups[w][i] < n {
        if u == w { assert groups[w][i] in groups[w]; }
      }
    }
  }

  /** The grouping loop. */
  method GroupByWindow(ts: seq<Table>, window: int) returns (groups: map<int, seq<nat>>)
    ensures PlacesAre(ts, |ts|, Size(window), groups)
    ensures GroupsAre(ts, |ts|, window, groups)
  {
    groups := map[];
    for i := 0 to |ts|
      invariant GroupsAre(ts, i, window, groups) && PlacesAre(ts, i, Size(window), groups)
    {
      if ts[i].rows == [] {
        GroupsSkip(ts, i, window, groups);
        PlacesSkip(ts, i, Size(window), groups);
      } else {
        var w := WindowOf(ts[i], window);
        GroupsAdd(ts, i, window, groups, w);
        PlacesAdd(ts, i, window, groups, w);
        groups := groups[w := Positions(groups, w) + [i]];
      }
    }
  }

  /** Windows before `w` in the map's order are known not to be full. */
  ghost predicate Passed(groups: map<int, seq<nat>>, todo: set<int>, threshold: nat) {
    && todo <= groups.Keys
    && (forall w | w in groups && w !in todo :: |groups[w]| < threshold)
    && (forall w, x | w in groups && w !in todo && x in todo :: w < x)
  }

  lemma PassedNext(groups: map<int, seq<nat>>, todo: set<int>, threshold: nat, w: int)
    requires Passed(groups, todo, threshold) && w in todo && (forall x | x in todo :: w <= x) && |groups[w]| < threshold
    ensures Passed(groups, todo - {w}, threshold)
  {
    forall u, x | u in groups && u !in todo - {w} && x in todo - {w} ensures u < x {
      if u == w { assert x in todo; }
    }
  }

  lemma GroupSizes(ts: seq<Table>, window: int, groups: map<int, seq<nat>>)
    requires GroupsAre(ts, |ts|, window, groups)
    ensures forall w :: w in groups <==> Group(ts, window, w) != []
    ensures forall w | w in groups ::
              && (forall k | 0 <= k < |groups[w]| :: groups[w][k] < |ts|)
              && Picked(ts, groups[w]) == Group(ts, window, w)
  {
    assert ts[..|ts|] == ts;
    forall w
      ensures w in groups <==> Group(ts, window, w) != []
      ensures w in groups ==>
                && (forall k | 0 <= k < |groups[w]| :: groups[w][k] < |ts|)
                && Picked(ts, groups[w]) == Group(ts, window, w)
    {
      assert GroupIs(ts, |ts|, window, groups, w);
    }
  }

  /** The least remaining window is the first full one, if it is full. */
  lemma FirstFull(ts: seq<Table>, window: int, threshold: nat, groups: map<int, seq<nat>>, todo: set<int>, w: int)
    requires GroupsAre(ts, |ts|, window, groups) && Passed(groups, todo, threshold) && |ts| >= threshold
    requires w in todo && (forall x | x in todo :: w <= x) && |groups[w]| >= threshold
    ensures Chosen(ts, window, threshold, w)
    ensures (forall k | 0 <= k < |groups[w]| :: groups[w][k] < |ts|) && Picked(ts, groups[w]) == Group(ts, window, w)
  {
    GroupSizes(ts, window, groups);
    forall v | v < w && Group(ts, window, v) != [] ensures |Group(ts, window, v)| < threshold {
      assert v in groups && |Picked(ts, groups[v])| == |groups[v]|;
    }
  }

  lemma NoneFull(ts: seq<Table>, window: int, threshold: nat, groups: map<int, seq<nat>>)
    requires GroupsAre(ts, |ts|, window, groups) && Passed(groups, {}, threshold)
    ensures !Busy(ts, window, threshold)
  {
    BusyUnlessQuiet(ts, window, threshold);
    GroupSizes(ts, window, groups);
    forall v | Group(ts, window, v) != [] ensures |Group(ts, window, v)| < threshold {
      assert v in groups && |Picked(ts, groups[v])| == |groups[v]|;
    }
  }

  lemma TooFew(ts: seq<Table>, window: int, threshold: nat)
    requires |ts| < threshold
    ensures !Busy(ts, window, threshold)
  {
    BusyUnlessQuiet(ts, window, threshold);
    forall w ensures |Group(ts, window, w)| <= |ts| { GroupSize(ts, window, w); }
  }

  method First(windows: set<int>) returns (w: int)
    requires windows != {}
    ensures w in windows && forall x | x in windows :: w <= x
  {
    IntOrder();
    ghost var least := Least(windows, (a: int, b: int) => a < b);
    w :| w in windows && forall x | x in windows :: w <= x;
  }

  /** The places of the tables that start in the earliest interval with enough of them. */
  ghost predicate PlacesOfFirst(ts: seq<Table>, size: int, threshold: nat, w: int, places: seq<nat>) {
    && |ts| >= threshold && Crowded(ts, w, size, threshold) && (forall v | v < w :: !Crowded(ts, v, size, threshold))
    && Rising(places) && forall k: nat :: k in places <==> k < |ts| && StartsIn(ts[k], w, size)
  }

  lemma BusyIff(ts: seq<Table>, window: int, threshold: nat)
    ensures Busy(ts, window, threshold) <==> |ts| >= threshold && exists v :: Crowded(ts, v, Size(window), threshold)
  {
    BusyUnlessQuiet(ts, window, threshold);
    forall v
      ensures Crowded(ts, v, Size(window), threshold) <==>
                Group(ts, window, v) != [] && |Group(ts, window, v)| >= threshold
    {
      CrowdedIff(ts, window, v, threshold);
      GroupSize(ts, window, v);
    }
  }

  /** The first full window, in the order of the map, and the positions of its tables. */
  method ChooseWindow(ts: seq<Table>, window: int, threshold: nat) returns (chosen: Option<(int, seq<nat>)>)
    ensures chosen.None? <==> |ts| < threshold || forall v :: !Crowded(ts, v, Size(window), threshold)
    ensures chosen.Some? ==> PlacesOfFirst(ts, Size(window), threshold, chosen.value.0, chosen.value.1)
    ensures chosen.None? <==> !Busy(ts, window, threshold)
    ensures chosen.Some? ==> Chosen(ts, window, threshold, chosen.value.0)
    ensures chosen.Some? ==> forall k | 0 <= k < |chosen.value.1| :: chosen.value.1[k] < |ts|
    ensures chosen.Some? ==> Picked(ts, chosen.value.1) == Group(ts, window, chosen.value.0)
  {
    BusyIff(ts, window, threshold);
    if |ts| < threshold {
      TooFew(ts, window, threshold);
      return None;
    }
    var groups := GroupByWindow(ts, window);
    var todo := groups.Keys;
    while todo != {}
      invariant Passed(groups, todo, threshold)
      decreases |todo|
    {
      var w := First(todo);
      if |groups[w]| >= threshold {
        FirstFull(ts, window, threshold, groups, todo, w);
        ChosenMeans(ts, window, threshold, w);
        assert PlacesAt(ts, |ts|, Size(window), groups, w);
        return Some((w, groups[w]));
      }
      PassedNext(groups, todo, threshold, w);
      todo := todo - {w};
    }
    NoneFull(ts, window, threshold, groups);
    return None;
  }
}
