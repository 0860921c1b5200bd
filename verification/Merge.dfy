/**
 The k-way merge (src/query/merge.rs): a heap with one cursor per source, newest-wins
 deduplication, and output cut into batches.
 */
module Merge {
  import opened Rows

  const BATCH_ROWS: nat := 10_000

  // ---------- What the merge means ----------

  predicate AllSorted(inputs: seq<seq<Row>>) {
    forall i | 0 <= i < |inputs| :: Sorted(inputs[i])
  }

  /** `w`, read from source `t`, is preferred to `q` of the same key read from source `i`. */
  predicate Beats(w: Row, t: nat, q: Row, i: nat) {
    q.seqNo < w.seqNo || (q.seqNo == w.seqNo && t <= i)
  }

  ghost predicate WinnerFrom(inputs: seq<seq<Row>>, w: Row, t: nat) {
    && t < |inputs| && w in inputs[t]
    && forall i, j | 0 <= i < |inputs| && 0 <= j < |inputs[i]| && inputs[i][j].key == w.key ::
         Beats(w, t, inputs[i][j], i)
  }

  ghost predicate Winner(inputs: seq<seq<Row>>, w: Row) {
    exists t :: WinnerFrom(inputs, w, t)
  }

  /** Highest sequence number, lowest source on ties, is exactly the fold over the sources in order. */
  lemma {:induction false} WinnerIsMapEntry(inputs: seq<seq<Row>>, w: Row, t: nat)
    requires AllSorted(inputs) && WinnerFrom(inputs, w, t)
    ensures w.key in NewestMap(Flatten(inputs)) && NewestMap(Flatten(inputs))[w.key] == w
  {
    var head, rest := inputs[0], Flatten(inputs[1..]);
    NewestMapConcat(head, rest, w.key);
    NewestMapMeaning(head, w.key);
    NewestMapMeaning(rest, w.key);
    if t == 0 {
      var i :| 0 <= i < |head| && head[i] == w;
      assert WinsAt(head, i) by {
        forall j | 0 <= j < |head| && head[j].key == w.key ensures j == i {
          SortedKeysDistinct(head, i, j);
        }
      }
      WinnerIsNewest(head, i);
      if w.key in NewestMap(rest) {
        var q := NewestMap(rest)[w.key];
        FlattenMember(inputs[1..], q);
        var s :| 0 <= s < |inputs[1..]| && q in inputs[1..][s];
        var j :| 0 <= j < |inputs[s + 1]| && inputs[s + 1][j] == q;
      }
    } else {
      forall i, j | 0 <= i < |inputs[1..]| && 0 <= j < |inputs[1..][i]| && inputs[1..][i][j].key == w.key
        ensures Beats(w, t - 1, inputs[1..][i][j], i)
      {
        assert inputs[i + 1][j].key == w.key;
      }
      assert WinnerFrom(inputs[1..], w, t - 1);
      WinnerIsMapEntry(inputs[1..], w, t - 1);
    }
  }

  // ---------- One round of the merge, on values ----------

  predicate Positions(inputs: seq<seq<Row>>, pos: seq<nat>) {
    |pos| == |inputs| && forall i | 0 <= i < |pos| :: pos[i] <= |inputs[i]|
  }

  /** Rows before `pos` have been merged into `done`; everything after lies strictly above it. */
  ghost predicate MergedTo(inputs: seq<seq<Row>>, pos: seq<nat>, done: seq<Row>) {
    && Positions(inputs, pos)
    && Sorted(done)
    && (forall d, i, j | 0 <= d < |done| && 0 <= i < |inputs| && pos[i] <= j < |inputs[i]| ::
          KeyLess(done[d].key, inputs[i][j].key))
    && (forall i, j | 0 <= i < |inputs| && 0 <= j < pos[i] :: KeyEmitted(done, inputs[i][j].key))
    && (forall d | 0 <= d < |done| :: Winner(inputs, done[d]))
  }

  ghost predicate KeyEmitted(done: seq<Row>, k: Key) {
    exists d :: 0 <= d < |done| && done[d].key == k
  }

  /** `inputs[t][pos[t]]` is the heap's minimum over the heads of the unfinished sources. */
  predicate IsTop(inputs: seq<seq<Row>>, pos: seq<nat>, t: nat)
    requires Positions(inputs, pos)
  {
    && t < |inputs| && pos[t] < |inputs[t]|
    && var w := inputs[t][pos[t]];
       forall i | 0 <= i < |inputs| && pos[i] < |inputs[i]| ::
         KeyLess(w.key, inputs[i][pos[i]].key)
         || (inputs[i][pos[i]].key == w.key && Beats(w, t, inputs[i][pos[i]], i))
  }

  /** Exactly the heads that share the top's key have moved on by one. */
  predicate Skipped(inputs: seq<seq<Row>>, pos: seq<nat>, pos': seq<nat>, k: Key)
    requires Positions(inputs, pos)
  {
    && |pos'| == |pos|
    && forall i | 0 <= i < |inputs| ::
         pos'[i] == if pos[i] < |inputs[i]| && inputs[i][pos[i]].key == k then pos[i] + 1 else pos[i]
  }

  lemma HeadBelow(rows: seq<Row>, i: nat, j: nat, k: Key)
    requires Sorted(rows) && i <= j < |rows|
    requires KeyLess(k, rows[i].key) || (k == rows[i].key && i < j)
    ensures KeyLess(k, rows[j].key)
  {
    if i < j && k != rows[i].key {
      KeyTransitive(k, rows[i].key, rows[j].key);
    }
  }

  lemma TopWins(inputs: seq<seq<Row>>, pos: seq<nat>, done: seq<Row>, t: nat)
    requires AllSorted(inputs) && MergedTo(inputs, pos, done) && IsTop(inputs, pos, t)
    ensures WinnerFrom(inputs, inputs[t][pos[t]], t)
  {
    var w := inputs[t][pos[t]];
    forall d | 0 <= d < |done| ensures done[d].key != w.key {
      KeyAsymmetric(done[d].key, w.key);
    }
    forall i, j | 0 <= i < |inputs| && 0 <= j < pos[i] ensures inputs[i][j].key != w.key {
      assert KeyEmitted(done, inputs[i][j].key);
    }
    forall i, j | 0 <= i < |inputs| && 0 <= j < |inputs[i]| && inputs[i][j].key == w.key
      ensures Beats(w, t, inputs[i][j], i)
    {
      KeyIrreflexive(w.key);
      if j > pos[i] {
        HeadBelow(inputs[i], pos[i], j, w.key);
      }
    }
  }

  /** One round keeps the merge invariant: no row is lost, repeated or out of order. */
  lemma Round(inputs: seq<seq<Row>>, pos: seq<nat>, done: seq<Row>, t: nat, pos': seq<nat>)
    requires AllSorted(inputs) && MergedTo(inputs, pos, done) && IsTop(inputs, pos, t)
    requires Skipped(inputs, pos, pos', inputs[t][pos[t]].key)
    ensures MergedTo(inputs, pos', done + [inputs[t][pos[t]]])
  {
    var w := inputs[t][pos[t]];
    var done' := done + [w];
    TopWins(inputs, pos, done, t);
    assert Winner(inputs, w);
    forall d, i, j | 0 <= d < |done'| && 0 <= i < |inputs| && pos'[i] <= j < |inputs[i]|
      ensures KeyLess(done'[d].key, inputs[i][j].key)
    {
      if d < |done| {
        assert KeyLess(done[d].key, inputs[i][j].key);
      } else {
        HeadBelow(inputs[i], pos[i], j, w.key);
      }
    }
    forall i, j | 0 <= i < |inputs| && 0 <= j < pos'[i] ensures KeyEmitted(done', inputs[i][j].key) {
      if j < pos[i] {
        assert KeyEmitted(done, inputs[i][j].key);
        var d :| 0 <= d < |done| && done[d].key == inputs[i][j].key;
        assert done'[d].key == inputs[i][j].key;
      } else {
        assert done'[|done|].key == inputs[i][j].key;
      }
    }
  }

  /** When every source is used up the output lists the newest-version map. */
  lemma MergedAll(inputs: seq<seq<Row>>, pos: seq<nat>, done: seq<Row>)
    requires AllSorted(inputs) && MergedTo(inputs, pos, done)
    requires forall i | 0 <= i < |inputs| :: pos[i] == |inputs[i]|
    ensures Lists(done, NewestMap(Flatten(inputs)))
  {
    var m := NewestMap(Flatten(inputs));
    forall d | 0 <= d < |done| ensures done[d].key in m && m[done[d].key] == done[d] {
      var t :| WinnerFrom(inputs, done[d], t);
      WinnerIsMapEntry(inputs, done[d], t);
    }
    forall k | k in m ensures m[k] in done {
      NewestMapMeaning(Flatten(inputs), k);
      FlattenMember(inputs, m[k]);
      var i :| 0 <= i < |inputs| && m[k] in inputs[i];
      var j :| 0 <= j < |inputs[i]| && inputs[i][j] == m[k];
      assert KeyEmitted(done, inputs[i][j].key);
    }
  }

  // ---------- The heap ----------

  datatype CursorKey = CursorKey(key: Key, seqNo: nat, deleted: bool)

  datatype Entry = Entry(cursor: CursorKey, src: nat, row: nat)

  /** The order of `CursorEntry`: key, then newer first, then lower source first. */
  predicate EntryLeq(a: Entry, b: Entry) {
    || KeyLess(a.cursor.key, b.cursor.key)
    || (a.cursor.key == b.cursor.key
        && (a.cursor.seqNo > b.cursor.seqNo || (a.cursor.seqNo == b.cursor.seqNo && a.src <= b.src)))
  }

  lemma EntryLeqTransitive(a: Entry, b: Entry, c: Entry)
    requires EntryLeq(a, b) && EntryLeq(b, c)
    ensures EntryLeq(a, c)
  {
    if KeyLess(a.cursor.key, b.cursor.key) && KeyLess(b.cursor.key, c.cursor.key) {
      KeyTransitive(a.cursor.key, b.cursor.key, c.cursor.key);
    }
  }

  predicate IsMin(h: multiset<Entry>, e: Entry) {
    e in h && forall x | x in h :: EntryLeq(e, x)
  }

  lemma {:induction false} MinExists(h: multiset<Entry>)
    requires |h| > 0
    ensures exists e :: IsMin(h, e)
    decreases |h|
  {
    var e :| e in h;
    var rest := h - multiset{e};
    if |rest| == 0 {
      assert h == multiset{e};
      assert IsMin(h, e);
    } else {
      MinExists(rest);
      var f :| IsMin(rest, f);
      KeyTotal(e.cursor.key, f.cursor.key);
      forall x | x in h ensures x == e || x in rest {}
      if EntryLeq(f, e) {
        assert IsMin(h, f);
      } else {
        forall x | x in h ensures EntryLeq(e, x) {
          if x != e { EntryLeqTransitive(e, f, x); }
        }
        assert IsMin(h, e);
      }
    }
  }

  /** What `pop` and `peek` of the binary heap find. */
  method Smallest(h: multiset<Entry>) returns (e: Entry)
    requires |h| > 0
    ensures IsMin(h, e)
  {
    MinExists(h);
    e :| IsMin(h, e);
  }

  // ---------- MergeBatchIter ----------

  function CursorKeyOf(r: Row): CursorKey {
    CursorKey(r.key, r.seqNo, r.value == None)
  }

  function CursorKeys(batch: seq<Row>): seq<CursorKey> {
    seq(|batch|, i requires 0 <= i < |batch| => CursorKeyOf(batch[i]))
  }

  /** `extract_keys`: the batch's cursor keys, or None where the strictly increasing check fails. */
  method ExtractKeys(batch: seq<Row>, prevTail: Option<Key>) returns (keys: Option<seq<CursorKey>>)
    ensures keys.Some? <==> Sorted(batch) && (prevTail.Some? && batch != [] ==> KeyLess(prevTail.value, batch[0].key))
    ensures keys.Some? ==> keys.value == CursorKeys(batch)
  {
    var out := [];
    for i := 0 to |batch|
      invariant out == CursorKeys(batch)[..i]
      invariant Sorted(batch[..i])
      invariant i > 0 && prevTail.Some? ==> KeyLess(prevTail.value, batch[0].key)
    {
      var key := CursorKeyOf(batch[i]);
      if i > 0 {
        if !KeyLess(out[i - 1].key, key.key) {
          assert !KeyLess(batch[i - 1].key, batch[i].key);
          return None;
        }
        forall j | 0 <= j < i ensures KeyLess(batch[j].key, batch[i].key) {
          if j < i - 1 {
            assert KeyLess(batch[..i][j].key, batch[..i][i - 1].key);
            KeyTransitive(batch[j].key, batch[i - 1].key, batch[i].key);
          }
        }
        forall a, b | 0 <= a < b < i + 1 ensures KeyLess(batch[a].key, batch[b].key) {
          if b < i { assert KeyLess(batch[..i][a].key, batch[..i][b].key); }
        }
      } else if prevTail.Some? && !KeyLess(prevTail.value, key.key) {
        return None;
      }
      out := out + [key];
    }
    assert batch[..|batch|] == batch;
    return Some(out);
  }

  /** Between `from` and `pos` a source other than `t` has skipped at most one row, of key `k`. */
  ghost predicate SkippedOnly(inputs: seq<seq<Row>>, from: seq<nat>, pos: seq<nat>, t: nat, k: Key)
    requires Positions(inputs, pos) && Positions(inputs, from) && t < |inputs|
  {
    && pos[t] == from[t]
    && forall i | 0 <= i < |inputs| && i != t ::
         pos[i] == from[i]
         || (from[i] < |inputs[i]| && pos[i] == from[i] + 1 && inputs[i][from[i]].key == k)
  }

  ghost predicate HeadsAtLeast(inputs: seq<seq<Row>>, pos: seq<nat>, t: nat, k: Key)
    requires Positions(inputs, pos)
  {
    forall i | 0 <= i < |inputs| && i != t && pos[i] < |inputs[i]| :: KeyLeq(k, inputs[i][pos[i]].key)
  }

  lemma SkipMoves(inputs: seq<seq<Row>>, from: seq<nat>, pos: seq<nat>, t: nat, k: Key, src: nat)
    requires Positions(inputs, pos) && Positions(inputs, from) && t < |inputs|
    requires SkippedOnly(inputs, from, pos, t, k) && HeadsAtLeast(inputs, pos, t, k)
    requires src < |inputs| && src != t && pos[src] == from[src] < |inputs[src]| && inputs[src][pos[src]].key == k
    requires pos[src] + 1 < |inputs[src]| ==> KeyLess(k, inputs[src][pos[src] + 1].key)
    ensures Positions(inputs, pos[src := pos[src] + 1])
    ensures SkippedOnly(inputs, from, pos[src := pos[src] + 1], t, k)
    ensures HeadsAtLeast(inputs, pos[src := pos[src] + 1], t, k)
    ensures Left(inputs, pos[src := pos[src] + 1]) < Left(inputs, pos)
  {
    LeftDecreases(inputs, pos, src);
  }

  datatype Cursor = Cursor(batch: Option<seq<Row>>, keys: seq<CursorKey>)

  /** How one turn of `load_next_batch` ends. */
  datatype Step = Queued | Empty | Unordered

  datatype Outcome = Batch(rows: seq<Row>) | Exhausted | Unsorted

  function Left(inputs: seq<seq<Row>>, pos: seq<nat>): nat
    requires Positions(inputs, pos)
  {
    if inputs == [] then 0 else |inputs[0]| - pos[0] + Left(inputs[1..], pos[1..])
  }

  lemma {:induction false} LeftDecreases(inputs: seq<seq<Row>>, pos: seq<nat>, i: nat)
    requires Positions(inputs, pos) && i < |inputs| && pos[i] < |inputs[i]|
    ensures Left(inputs, pos[i := pos[i] + 1]) == Left(inputs, pos) - 1
  {
    if i > 0 {
      LeftDecreases(inputs[1..], pos[1..], i - 1);
      assert pos[i := pos[i] + 1][1..] == pos[1..][i - 1 := pos[i] + 1];
    } else {
      assert pos[i := pos[i] + 1][1..] == pos[1..];
    }
  }

  /** The first `n` rows are strictly increasing. */
  ghost predicate SortedTo(rows: seq<Row>, n: nat)
    requires n <= |rows|
  {
    forall i, j {:trigger KeyLess(rows[i].key, rows[j].key)} | 0 <= i < j < n :: KeyLess(rows[i].key, rows[j].key)
  }

  ghost predicate LiesAt(rows: seq<Row>, at: nat, batch: seq<Row>) {
    at + |batch| <= |rows| && forall k | 0 <= k < |batch| :: rows[at + k] == batch[k]
  }

  /** The batches of `rest`, joined, are the rows from `at` on. */
  ghost predicate Ahead(rows: seq<Row>, at: nat, rest: seq<seq<Row>>)
    decreases rest
  {
    if rest == [] then at == |rows| else LiesAt(rows, at, rest[0]) && Ahead(rows, at + |rest[0]|, rest[1..])
  }

  /**
   One source: `loaded` rows handed out and found sorted, `pos` of them merged, and the
   current batch ending where the loaded rows end.
   */
  ghost predicate SourceState(input: seq<Row>, loaded: nat, pos: nat, rest: seq<seq<Row>>,
                              last: Option<Key>, cursor: Cursor)
  {
    && pos <= loaded <= |input|
    && Ahead(input, loaded, rest)
    && SortedTo(input, loaded)
    && last == (if loaded == 0 then None else Some(input[loaded - 1].key))
    && match cursor.batch
       case None => pos == loaded
       case Some(b) =>
         && |b| <= loaded && loaded - |b| <= pos
         && LiesAt(input, loaded - |b|, b)
         && cursor.keys == CursorKeys(b)
  }

  lemma {:induction false} AheadOf(rows: seq<Row>, at: nat, rest: seq<seq<Row>>)
    requires at <= |rows| && rows[at..] == Flatten(rest)
    ensures Ahead(rows, at, rest)
    decreases rest
  {
    if rest != [] {
      assert rows[at..][..|rest[0]|] == rest[0];
      forall k | 0 <= k < |rest[0]| ensures rows[at + k] == rest[0][k] { assert rows[at..][k] == rest[0][k]; }
      assert rows[at + |rest[0]|..] == rows[at..][|rest[0]|..] == Flatten(rest[1..]);
      AheadOf(rows, at + |rest[0]|, rest[1..]);
    }
  }

  /** A batch without rows may be dropped. */
  lemma DropState(input: seq<Row>, loaded: nat, pos: nat, rest: seq<seq<Row>>, last: Option<Key>, cursor: Cursor)
    requires SourceState(input, loaded, pos, rest, last, cursor) && rest != [] && rest[0] == []
    ensures SourceState(input, loaded, pos, rest[1..], last, cursor)
  {
  }

  datatype Parked = Parked(loaded: nat, cursor: Cursor)

  class MergeBatchIter {
    var sources: seq<seq<seq<Row>>>     // batches each source has not handed out yet
    var cursors: seq<Cursor>
    var heap: multiset<Entry>
    var lastKeys: seq<Option<Key>>
    var buffered: seq<Row>              // the column builders
    var primed: bool

    ghost var parked: map<nat, Parked>  // sources in hand that no other source's step may disturb
    ghost var inputs: seq<seq<Row>>     // every source's rows, batches joined
    ghost var loaded: seq<nat>          // rows of each source handed out so far
    ghost var pos: seq<nat>             // rows of each source merged so far
    ghost var emitted: seq<Row>         // rows of the batches returned so far
    ghost var merged: seq<Row>          // `emitted` and then the buffered rows

    ghost predicate Shape()
      reads `inputs, `sources, `cursors, `lastKeys, `loaded, `pos
    {
      && |inputs| == |sources| == |cursors| == |lastKeys| == |loaded|
      && Positions(inputs, pos)
    }

    ghost predicate SourceOk(i: nat)
      requires Shape() && i < |inputs|
      reads `inputs, `sources, `cursors, `lastKeys, `loaded, `pos
    {
      SourceState(inputs[i], loaded[i], pos[i], sources[i], lastKeys[i], cursors[i])
    }

    /** The entry points at the next unmerged row of its source, inside the source's current batch. */
    ghost predicate EntryOk(e: Entry)
      requires Shape()
      reads `inputs, `sources, `cursors, `lastKeys, `loaded, `pos
    {
      && e.src < |inputs|
      && pos[e.src] < loaded[e.src] <= |inputs[e.src]|
      && e.cursor == CursorKeyOf(inputs[e.src][pos[e.src]])
      && cursors[e.src].batch.Some?
      && e.row < |cursors[e.src].batch.value|
      && loaded[e.src] - |cursors[e.src].batch.value| + e.row == pos[e.src]
    }

    ghost predicate HasEntry(i: nat)
      reads `heap
    {
      exists e :: e in heap && e.src == i
    }

    /** Every source outside `hand` has exactly one heap entry, or is used up. */
    ghost predicate Valid(hand: set<nat>)
      reads `inputs, `sources, `cursors, `lastKeys, `loaded, `pos, `heap, `parked
    {
      && Shape()
      && (forall i {:trigger SourceOk(i)} | 0 <= i < |inputs| :: SourceOk(i))
      && (forall e | e in heap :: EntryOk(e) && heap[e] == 1 && e.src !in hand)
      && (forall i | i in parked ::
            i < |inputs| && i in hand && loaded[i] == parked[i].loaded && cursors[i] == parked[i].cursor)
      && (forall i {:trigger HasEntry(i)} | 0 <= i < |inputs| && i !in hand && pos[i] < |inputs[i]| :: HasEntry(i))
    }

    ghost predicate AtEnd()
      requires Shape()
      reads this
    {
      forall i | 0 <= i < |inputs| :: pos[i] == |inputs[i]|
    }

    /** What holds between calls of `next_batch` that have not failed. */
    ghost predicate Ready()
      reads this
    {
      && Shape() && parked == map[] && buffered == [] && merged == emitted
      && MergedSoFar()
      && if primed then Valid({})
         else heap == multiset{} && forall i | 0 <= i < |inputs| :: SourceOk(i) && loaded[i] == 0
    }

    constructor (sources: seq<seq<seq<Row>>>)
      ensures Ready() && !primed && parked == map[] && heap == multiset{} && buffered == [] && emitted == []
      ensures this.sources == sources && |inputs| == |sources|
      ensures forall i | 0 <= i < |inputs| :: SourceOk(i) && loaded[i] == 0
      ensures forall i | 0 <= i < |sources| :: inputs[i] == Flatten(sources[i])
    {
      this.sources := sources;
      cursors := seq(|sources|, _ => Cursor(None, []));
      lastKeys := seq(|sources|, _ => None);
      heap, buffered, primed := multiset{}, [], false;
      parked := map[];
      inputs := seq(|sources|, i requires 0 <= i < |sources| => Flatten(sources[i]));
      loaded := seq(|sources|, _ => 0);
      pos := seq(|sources|, _ => 0);
      emitted, merged := [], [];
      new;
      forall i | 0 <= i < |inputs| ensures Ahead(inputs[i], 0, sources[i]) { AheadOf(inputs[i], 0, sources[i]); }
    }

    /** Reads batches of source `src` until one has rows, and queues its first row. */
    method LoadNextBatch(src: nat, ghost hand: set<nat>) returns (ok: bool)
      requires Valid(hand + {src}) && src < |inputs| && src !in hand && src !in parked && pos[src] == loaded[src]
      modifies `sources, `cursors, `lastKeys, `loaded, `heap
      ensures ok ==> Valid(hand)
      ensures !ok ==> !Sorted(inputs[src])
    {
      var step := Empty;
      while step == Empty
        invariant step == Empty ==> Valid(hand + {src}) && pos[src] == loaded[src]
        invariant step == Queued ==> Valid(hand)
        invariant step == Unordered ==> !Sorted(inputs[src])
        decreases step == Empty, if step == Empty then |sources[src]| else 0
      {
        step := ReadBatch(src, hand);
      }
      ok := step == Queued;
    }

    /** One turn of the loading loop. */
    method ReadBatch(src: nat, ghost hand: set<nat>) returns (step: Step)
      requires Valid(hand + {src}) && src < |inputs| && src !in hand && src !in parked && pos[src] == loaded[src]
      modifies `sources, `cursors, `lastKeys, `loaded, `heap
      ensures step == Queued ==> Valid(hand)
      ensures step == Unordered ==> !Sorted(inputs[src])
      ensures step == Empty ==> Valid(hand + {src}) && pos[src] == loaded[src] && |sources[src]| < |old(sources)[src]|
    {
      assert SourceOk(src);
      if sources[src] == [] {
        CloseSource(src, hand);
        return Queued;
      }
      var batch := sources[src][0];
      var keys := ExtractKeys(batch, lastKeys[src]);
      if keys == None {
        NotSorted(inputs[src], loaded[src], batch);
        return Unordered;
      }
      if batch == [] {
        DropEmptyBatch(src, hand + {src});
        return Empty;
      }
      UseBatch(src, batch, keys.value, hand);
      return Queued;
    }

    /** A batch with rows becomes the current one, and its first row is queued. */
    method UseBatch(src: nat, batch: seq<Row>, keys: seq<CursorKey>, ghost hand: set<nat>)
      requires Valid(hand + {src}) && src < |inputs| && src !in hand && src !in parked && pos[src] == loaded[src]
      requires sources[src] != [] && batch == sources[src][0] && batch != [] && keys == CursorKeys(batch)
      requires Sorted(batch) && (lastKeys[src].Some? ==> KeyLess(lastKeys[src].value, batch[0].key))
      modifies `sources, `cursors, `lastKeys, `loaded, `heap
      ensures Valid(hand)
    {
      assert SourceOk(src);
      OpenedState(inputs[src], loaded[src], sources[src], lastKeys[src], cursors[src], keys);
      OpenBatch(src, batch, batch[|batch| - 1].key, keys, hand + {src});
      PushEntry(src, keys[0], 0, hand);
    }

    method CloseSource(src: nat, ghost hand: set<nat>)
      requires Valid(hand + {src}) && src < |inputs| && src !in hand && src !in parked && pos[src] == loaded[src]
      requires sources[src] == []
      modifies `cursors
      ensures Valid(hand)
    {
      assert SourceOk(src);
      assert Ahead(inputs[src], loaded[src], sources[src]) && pos[src] == |inputs[src]|;
      cursors := cursors[src := Cursor(None, [])];
      forall i | 0 <= i < |inputs| ensures SourceOk(i) {
        assert i != src ==> SourceOk(i) == old(SourceOk(i));
      }
    }

    method DropEmptyBatch(src: nat, ghost hand: set<nat>)
      requires Valid(hand) && src < |inputs| && src in hand && src !in parked && pos[src] == loaded[src]
      requires sources[src] != [] && sources[src][0] == []
      modifies `sources
      ensures Valid(hand) && pos[src] == loaded[src] && sources == old(sources)[src := old(sources)[src][1..]]
    {
      assert SourceOk(src);
      DropState(inputs[src], loaded[src], pos[src], sources[src], lastKeys[src], cursors[src]);
      sources := sources[src := sources[src][1..]];
      forall i | 0 <= i < |inputs| ensures SourceOk(i) {
        assert i != src ==> SourceOk(i) == old(SourceOk(i));
      }
    }

    /** Makes the next batch the source's current one. */
    method OpenBatch(src: nat, batch: seq<Row>, last: Key, keys: seq<CursorKey>, ghost hand: set<nat>)
      requires Valid(hand) && src < |inputs| && src in hand && src !in parked && sources[src] != [] && batch == sources[src][0]
      requires SourceState(inputs[src], loaded[src] + |batch|, pos[src], sources[src][1..], Some(last),
                           Cursor(Some(batch), keys))
      modifies `sources, `cursors, `lastKeys, `loaded
      ensures Valid(hand)
      ensures cursors[src].batch == Some(batch)
      ensures loaded[src] == old(loaded)[src] + |batch|
    {
      HandOut(src, hand);
      SetCursor(src, last, Cursor(Some(batch), keys), hand);
    }

    /** Like `Valid`, but with one source in hand between two states. */
    ghost predicate ValidBut(src: nat, hand: set<nat>)
      reads `inputs, `sources, `cursors, `lastKeys, `loaded, `pos, `heap, `parked
    {
      && Shape() && src in hand && src !in parked
      && (forall i {:trigger SourceOk(i)} | 0 <= i < |inputs| && i != src :: SourceOk(i))
      && (forall e | e in heap :: EntryOk(e) && heap[e] == 1 && e.src !in hand)
      && (forall i | i in parked ::
            i < |inputs| && i in hand && loaded[i] == parked[i].loaded && cursors[i] == parked[i].cursor)
      && (forall i {:trigger HasEntry(i)} | 0 <= i < |inputs| && i !in hand && pos[i] < |inputs[i]| :: HasEntry(i))
    }

    method HandOut(src: nat, ghost hand: set<nat>)
      requires Valid(hand) && src < |inputs| && src in hand && src !in parked && sources[src] != []
      modifies `sources, `loaded
      ensures ValidBut(src, hand)
      ensures sources == old(sources)[src := old(sources)[src][1..]]
      ensures loaded == old(loaded)[src := old(loaded)[src] + |old(sources)[src][0]|]
    {
      loaded := loaded[src := loaded[src] + |sources[src][0]|];
      sources := sources[src := sources[src][1..]];
      forall i | 0 <= i < |inputs| && i != src ensures SourceOk(i) {
        assert old(SourceOk(i));
      }
      forall e | e in heap ensures EntryOk(e) {
        assert old(EntryOk(e)) && e.src != src;
      }
    }

    method SetCursor(src: nat, last: Key, cursor: Cursor, ghost hand: set<nat>)
      requires ValidBut(src, hand) && src < |inputs|
      requires SourceState(inputs[src], loaded[src], pos[src], sources[src], Some(last), cursor)
      modifies `cursors, `lastKeys
      ensures Valid(hand) && cursors == old(cursors)[src := cursor]
    {
      lastKeys, cursors := lastKeys[src := Some(last)], cursors[src := cursor];
      forall i | 0 <= i < |inputs| ensures SourceOk(i) {
        if i != src { assert old(SourceOk(i)); }
      }
      forall e | e in heap ensures EntryOk(e) {
        assert old(EntryOk(e)) && e.src != src;
      }
    }

    method PushEntry(src: nat, key: CursorKey, row: nat, ghost hand: set<nat>)
      requires Valid(hand + {src}) && src < |inputs| && src !in hand && src !in parked && SourceOk(src)
      requires pos[src] < loaded[src] && key == CursorKeyOf(inputs[src][pos[src]])
      requires cursors[src].batch.Some? && row < |cursors[src].batch.value|
      requires loaded[src] - |cursors[src].batch.value| + row == pos[src]
      modifies this`heap
      ensures heap == old(heap) + multiset{Entry(key, src, row)}
      ensures Valid(hand)
    {
      var e := Entry(key, src, row);
      heap := heap + multiset{e};
      assert e in heap;
      forall f | f in heap ensures EntryOk(f) && heap[f] == 1 && f.src !in hand {
        if f != e { assert f in old(heap); }
      }
      forall i | 0 <= i < |inputs| && i !in hand && pos[i] < |inputs[i]| ensures HasEntry(i) {
        assert i != src ==> old(HasEntry(i));
      }
    }

    /** Row `row` of the source's batch is its next one. */
    ghost predicate PointsAt(src: nat, row: nat)
      requires Shape() && src < |inputs|
      reads `inputs, `sources, `cursors, `lastKeys, `loaded, `pos
    {
      pos[src] < loaded[src] && cursors[src].batch.Some? && loaded[src] - |cursors[src].batch.value| + row == pos[src]
    }

    /** `advance`: the entry's source moves to its next row. */
    method Advance(src: nat, row: nat, ghost hand: set<nat>) returns (ok: bool)
      requires Valid(hand + {src}) && src < |inputs| && src !in hand && src !in parked && PointsAt(src, row)
      modifies `sources, `cursors, `lastKeys, `loaded, `heap, `pos
      ensures !ok ==> !Sorted(inputs[src])
      ensures pos == old(pos)[src := old(pos)[src] + 1]
      ensures ok ==> Valid(hand)
    {
      assert SourceOk(src);
      StepPos(src, hand + {src});
      var nextRow := row + 1;
      var batch := cursors[src].batch.value;
      if nextRow < |batch| {
        assert batch[nextRow] == inputs[src][pos[src]];
        PushEntry(src, cursors[src].keys[nextRow], nextRow, hand);
        return true;
      }
      ok := LoadNextBatch(src, hand);
    }

    ghost method StepPos(src: nat, hand: set<nat>)
      requires Valid(hand) && src < |inputs| && src in hand && src !in parked && SourceOk(src)
      requires pos[src] < loaded[src] && cursors[src].batch.Some?
      modifies `pos
      ensures pos == old(pos)[src := old(pos)[src] + 1]
      ensures Valid(hand) && SourceOk(src)
    {
      pos := pos[src := pos[src] + 1];
      forall i | 0 <= i < |inputs| ensures SourceOk(i) {
        assert i != src ==> SourceOk(i) == old(SourceOk(i));
      }
      forall e | e in heap ensures EntryOk(e) {
        assert e.src != src ==> EntryOk(e) == old(EntryOk(e));
      }
    }

    /** `emit`: copies the entry's row into the builders, with the entry's own seq and op. */
    method Emit(e: Entry)
      requires e.src < |cursors| ==> cursors[e.src].batch.Some? ==> e.row < |cursors[e.src].batch.value|
      modifies `buffered
      ensures e.src < |cursors| && cursors[e.src].batch.Some? ==>
                var r := cursors[e.src].batch.value[e.row];
                buffered == old(buffered) + [Row(r.key, e.cursor.seqNo, if e.cursor.deleted then None else r.value)]
    {
      if e.src >= |cursors| { return; }
      match cursors[e.src].batch {
        case None =>
        case Some(batch) =>
          var r := batch[e.row];
          buffered := buffered + [Row(r.key, e.cursor.seqNo, if e.cursor.deleted then None else r.value)];
      }
    }

    lemma HeadLoaded(hand: set<nat>, i: nat)
      requires Valid(hand) && i < |inputs| && i !in hand && pos[i] < |inputs[i]|
      ensures SourceOk(i) && pos[i] < loaded[i]
    {
      assert HasEntry(i);
    }

    /** The inner loop of `next_batch`: drops the older rows of the top's key. */
    method SkipDuplicates(top: Entry, ghost from: seq<nat>) returns (ok: bool)
      requires Valid({top.src}) && top.src < |inputs| && pos == from && EntryOk(top)
      requires parked == map[top.src := Parked(loaded[top.src], cursors[top.src])]
      requires HeadsAtLeast(inputs, pos, top.src, top.cursor.key)
      modifies `sources, `cursors, `lastKeys, `loaded, `heap, `pos
      ensures !ok ==> !AllSorted(inputs)
      ensures ok ==> Valid({top.src}) && Positions(inputs, from) && SkippedOnly(inputs, from, pos, top.src, top.cursor.key)
      ensures ok ==> forall e | e in heap :: KeyLess(top.cursor.key, e.cursor.key)
      ensures ok ==> Left(inputs, pos) <= old(Left(inputs, pos)) && EntryOk(top)
    {
      var k := top.cursor.key;
      var more := true;
      ok := true;
      while more
        invariant ok ==> Skipping(top.src, k, from) && Left(inputs, pos) <= old(Left(inputs, pos))
        invariant ok && !more ==> forall e | e in heap :: KeyLess(k, e.cursor.key)
        invariant !ok ==> !more && !AllSorted(inputs)
        decreases more, if more then Left(inputs, pos) else 0
      {
        ok, more := SkipNext(top.src, k, from);
      }
      if ok {
        assert SourceOk(top.src);
        TopStays(top, from);
      }
    }

    /** What holds while the rows of one key are dropped, its newest row being in hand. */
    ghost predicate Skipping(t: nat, k: Key, from: seq<nat>)
      reads `inputs, `sources, `cursors, `lastKeys, `loaded, `pos, `heap, `parked
    {
      && Valid({t}) && t < |inputs| && Positions(inputs, from)
      && SkippedOnly(inputs, from, pos, t, k) && HeadsAtLeast(inputs, pos, t, k)
    }

    lemma TopStays(top: Entry, from: seq<nat>)
      requires Skipping(top.src, top.cursor.key, from) && parked.Keys == {top.src}
      requires cursors[top.src].batch.Some? && top.row < |cursors[top.src].batch.value|
      requires from[top.src] < loaded[top.src] <= |inputs[top.src]| && top.cursor == CursorKeyOf(inputs[top.src][from[top.src]])
      requires loaded[top.src] - |cursors[top.src].batch.value| + top.row == from[top.src]
      ensures EntryOk(top)
    {
    }

    /** The heap's minimum, if it is of the same key; `more` tells whether it was. */
    method SkipNext(t: nat, k: Key, ghost from: seq<nat>) returns (ok: bool, more: bool)
      requires Skipping(t, k, from) && parked.Keys == {t}
      modifies `sources, `cursors, `lastKeys, `loaded, `heap, `pos
      ensures !ok ==> !more && !AllSorted(inputs)
      ensures ok ==> Skipping(t, k, from)
      ensures ok && more ==> Left(inputs, pos) < old(Left(inputs, pos))
      ensures ok && !more ==> Left(inputs, pos) == old(Left(inputs, pos)) && forall e | e in heap :: KeyLess(k, e.cursor.key)
    {
      if |heap| == 0 { return true, false; }
      var next := Smallest(heap);
      if next.cursor.key != k {
        NoDuplicates(next, t, k);
        return true, false;
      }
      ok := SkipOne(next, t, from);
      more := ok;
    }

    /** If the minimum has another key, every entry has a larger one. */
    lemma NoDuplicates(next: Entry, t: nat, k: Key)
      requires Valid({t}) && IsMin(heap, next) && next.cursor.key != k && HeadsAtLeast(inputs, pos, t, k)
      ensures forall e | e in heap :: KeyLess(k, e.cursor.key)
    {
      assert EntryOk(next);
      forall e | e in heap ensures KeyLess(k, e.cursor.key) {
        assert EntryLeq(next, e);
        if KeyLess(next.cursor.key, e.cursor.key) {
          KeyTransitive(k, next.cursor.key, e.cursor.key);
        }
      }
    }

    method SkipOne(dup: Entry, t: nat, ghost from: seq<nat>) returns (ok: bool)
      requires Valid({t}) && t < |inputs| && dup in heap && parked.Keys == {t}
      requires Positions(inputs, from) && SkippedOnly(inputs, from, pos, t, dup.cursor.key)
      requires HeadsAtLeast(inputs, pos, t, dup.cursor.key)
      modifies `sources, `cursors, `lastKeys, `loaded, `heap, `pos
      ensures !ok ==> !AllSorted(inputs)
      ensures ok ==> Valid({t}) && Left(inputs, pos) < old(Left(inputs, pos))
      ensures ok ==> SkippedOnly(inputs, from, pos, t, dup.cursor.key) && HeadsAtLeast(inputs, pos, t, dup.cursor.key)
    {
      FirstSkip(from, t, dup);
      assert EntryOk(dup);
      ghost var before := pos;
      ok := DropEntry(dup, {t});
      if ok {
        HeadMoved({t}, dup.src);
        SkipMoves(inputs, from, before, t, dup.cursor.key, dup.src);
      }
    }

    /** Pops an entry and advances its source. */
    method DropEntry(e: Entry, ghost hand: set<nat>) returns (ok: bool)
      requires Valid(hand) && e in heap && EntryOk(e) && e.src !in hand && e.src !in parked
      modifies `sources, `cursors, `lastKeys, `loaded, `heap, `pos
      ensures !ok ==> !Sorted(inputs[e.src])
      ensures pos == old(pos)[e.src := old(pos)[e.src] + 1]
      ensures ok ==> Valid(hand)
    {
      assert PointsAt(e.src, e.row);
      Take(e, hand);
      ok := Advance(e.src, e.row, hand);
    }

    /** A source that has just moved past a row heads with a larger key, if it has rows left. */
    lemma HeadMoved(hand: set<nat>, src: nat)
      requires Valid(hand) && src < |inputs| && src !in hand && pos[src] > 0
      ensures pos[src] < |inputs[src]| ==> KeyLess(inputs[src][pos[src] - 1].key, inputs[src][pos[src]].key)
    {
      if pos[src] < |inputs[src]| {
        HeadLoaded(hand, src);
        LoadedIncreases(src, pos[src] - 1, pos[src]);
      }
    }

    /** A source gives up at most one row of a key: its loaded rows are strictly increasing. */
    lemma FirstSkip(from: seq<nat>, t: nat, dup: Entry)
      requires Valid({t}) && t < |inputs| && dup in heap
      requires Positions(inputs, from) && SkippedOnly(inputs, from, pos, t, dup.cursor.key)
      ensures dup.src != t && dup.src < |inputs| && pos[dup.src] == from[dup.src]
    {
      assert EntryOk(dup) && SourceOk(dup.src);
      if pos[dup.src] != from[dup.src] {
        LoadedIncreases(dup.src, from[dup.src], pos[dup.src]);
        KeyIrreflexive(dup.cursor.key);
      }
    }

    lemma LoadedIncreases(src: nat, i: nat, j: nat)
      requires Shape() && src < |inputs| && SourceOk(src) && i < j < loaded[src]
      ensures KeyLess(inputs[src][i].key, inputs[src][j].key)
    {
      assert SourceOk(src);
    }

    lemma EntryUnique(e: Entry, f: Entry)
      requires Shape() && EntryOk(e) && EntryOk(f) && e.src == f.src
      ensures e == f
    {
    }

    lemma TakeEntries(e: Entry, hand: set<nat>, left: multiset<Entry>)
      requires Valid(hand) && e in heap && left == heap - multiset{e}
      ensures forall f | f in left :: EntryOk(f) && left[f] == 1 && f.src !in hand + {e.src}
    {
      forall f | f in left ensures EntryOk(f) && left[f] == 1 && f.src !in hand + {e.src} {
        assert f in heap && f != e && heap[f] == 1;
        assert EntryOk(f) && EntryOk(e);
        if f.src == e.src { EntryUnique(e, f); }
      }
    }

    lemma TakeHeads(e: Entry, hand: set<nat>, left: multiset<Entry>, i: nat)
      requires Valid(hand) && e in heap && left == heap - multiset{e}
      requires i < |inputs| && i !in hand && i != e.src && pos[i] < |inputs[i]|
      ensures exists x :: x in left && x.src == i
    {
      assert HasEntry(i);
      var x :| x in heap && x.src == i;
      assert x in left;
    }

    /** Removes an entry from the heap; its source is then in hand. */
    method Take(e: Entry, ghost hand: set<nat>)
      requires Valid(hand) && e in heap
      modifies `heap
      ensures heap == old(heap) - multiset{e}
      ensures Valid(hand + {e.src})
    {
      ghost var left := heap - multiset{e};
      TakeEntries(e, hand, left);
      forall i | 0 <= i < |inputs| && i !in hand && i != e.src && pos[i] < |inputs[i]|
        ensures exists x :: x in left && x.src == i
      {
        TakeHeads(e, hand, left, i);
      }
      heap := heap - multiset{e};
    }

    /** The heap's minimum is the minimum over the heads of all unfinished sources. */
    lemma TopOfHeap(top: Entry)
      requires Valid({}) && IsMin(heap, top)
      ensures EntryOk(top) && SourceOk(top.src) && IsTop(inputs, pos, top.src)
      ensures HeadsAtLeast(inputs, pos, top.src, top.cursor.key)
      ensures inputs[top.src][pos[top.src]].key == top.cursor.key
    {
      assert EntryOk(top) && SourceOk(top.src);
      var t := top.src;
      var w := inputs[t][pos[t]];
      forall i | 0 <= i < |inputs| && pos[i] < |inputs[i]|
        ensures KeyLess(w.key, inputs[i][pos[i]].key)
                || (inputs[i][pos[i]].key == w.key && Beats(w, t, inputs[i][pos[i]], i))
      {
        assert HasEntry(i);
        var e :| e in heap && e.src == i;
        assert EntryOk(e) && EntryLeq(top, e);
      }
    }

    ghost predicate MergedSoFar()
      reads `inputs, `pos, `merged
    {
      AllSorted(inputs) ==> MergedTo(inputs, pos, merged)
    }

    /** One turn of the loop of `next_batch`: the top row goes out, older rows of its key are dropped. */
    method MergeOne() returns (ok: bool, ghost row: Row)
      requires Valid({}) && parked == map[] && |heap| > 0 && MergedSoFar()
      modifies `sources, `cursors, `lastKeys, `loaded, `heap, `pos, `parked, `buffered, `merged
      ensures !ok ==> !AllSorted(inputs)
      ensures ok ==> Valid({}) && parked == map[] && MergedSoFar()
      ensures ok ==> buffered == old(buffered) + [row] && merged == old(merged) + [row]
      ensures ok ==> Left(inputs, pos) < old(Left(inputs, pos))
    {
      ghost var from, done := pos, merged;
      var top;
      ok, top := TakeTop();
      row := Row(top.cursor.key, 0, None);
      if !ok { return; }
      row := inputs[top.src][from[top.src]];
      EmitTop(top);
      ok := FinishTop(top, from);
      if ok && AllSorted(inputs) {
        Round(inputs, from, done, top.src, pos);
      }
    }

    /** Pops the top entry and drops the older rows of its key. */
    method TakeTop() returns (ok: bool, top: Entry)
      requires Valid({}) && parked == map[] && |heap| > 0
      modifies `sources, `cursors, `lastKeys, `loaded, `heap, `pos, `parked
      ensures !ok ==> !AllSorted(inputs)
      ensures ok ==> Valid({top.src}) && top.src < |inputs| && EntryOk(top) && Positions(inputs, old(pos))
      ensures ok ==> parked.Keys == {top.src} && SkippedOnly(inputs, old(pos), pos, top.src, top.cursor.key)
      ensures ok ==> forall e | e in heap :: KeyLess(top.cursor.key, e.cursor.key)
      ensures ok ==> IsTop(inputs, old(pos), top.src)
      ensures ok ==> Left(inputs, pos) <= old(Left(inputs, pos))
    {
      top := PopTop();
      ok := SkipDuplicates(top, pos);
    }

    method EmitTop(top: Entry)
      requires Valid({top.src}) && top.src < |inputs| && EntryOk(top)
      modifies `buffered, `merged
      ensures buffered == old(buffered) + [inputs[top.src][pos[top.src]]]
      ensures merged == old(merged) + [inputs[top.src][pos[top.src]]]
    {
      assert SourceOk(top.src);
      assert cursors[top.src].batch.value[top.row] == inputs[top.src][pos[top.src]];
      Emit(top);
      merged := merged + [inputs[top.src][pos[top.src]]];
    }

    method FinishTop(top: Entry, ghost from: seq<nat>) returns (ok: bool)
      requires Valid({top.src}) && top.src < |inputs| && EntryOk(top) && Positions(inputs, from)
      requires parked.Keys == {top.src} && SkippedOnly(inputs, from, pos, top.src, top.cursor.key)
      requires forall e | e in heap :: KeyLess(top.cursor.key, e.cursor.key)
      modifies `sources, `cursors, `lastKeys, `loaded, `heap, `pos, `parked
      ensures !ok ==> !AllSorted(inputs)
      ensures ok ==> Valid({}) && parked == map[]
      ensures ok ==> Skipped(inputs, from, pos, top.cursor.key)
      ensures ok ==> Left(inputs, pos) < old(Left(inputs, pos))
    {
      AllSkipped(top, from);
      LeftDecreases(inputs, pos, top.src);
      Unpark(top.src);
      ok := Advance(top.src, top.row, {});
    }

    ghost method Unpark(src: nat)
      requires Valid({src}) && parked.Keys == {src} && src < |inputs|
      modifies `parked
      ensures parked == map[] && Valid({} + {src}) && SourceOk(src)
    {
      parked := map[];
    }

    ghost method Park(src: nat)
      requires Valid({} + {src}) && parked == map[] && src < |inputs|
      modifies `parked
      ensures Valid({src}) && parked == map[src := Parked(loaded[src], cursors[src])]
    {
      parked := map[src := Parked(loaded[src], cursors[src])];
    }

    /** The minimum of the heap. */
    method PeekTop() returns (top: Entry)
      requires Valid({}) && |heap| > 0
      ensures top in heap && EntryOk(top)
      ensures IsTop(inputs, pos, top.src) && HeadsAtLeast(inputs, pos, top.src, top.cursor.key)
      ensures inputs[top.src][pos[top.src]].key == top.cursor.key
    {
      top := Smallest(heap);
      TopOfHeap(top);
    }

    method PopTop() returns (top: Entry)
      requires Valid({}) && parked == map[] && |heap| > 0
      modifies `heap, `parked
      ensures top.src < |inputs| && EntryOk(top) && Valid({top.src})
      ensures parked == map[top.src := Parked(loaded[top.src], cursors[top.src])]
      ensures IsTop(inputs, pos, top.src) && HeadsAtLeast(inputs, pos, top.src, top.cursor.key)
      ensures inputs[top.src][pos[top.src]].key == top.cursor.key
    {
      top := PeekTop();
      Take(top, {});
      Park(top.src);
    }

    /** With no older row of the key left in the heap, every source of that key has moved on. */
    lemma AllSkipped(top: Entry, from: seq<nat>)
      requires Valid({top.src}) && Positions(inputs, from) && top.src < |inputs| && EntryOk(top)
      requires SkippedOnly(inputs, from, pos, top.src, top.cursor.key)
      requires forall e | e in heap :: KeyLess(top.cursor.key, e.cursor.key)
      ensures pos[top.src] < |inputs[top.src]|
      ensures inputs[top.src][pos[top.src]].key == top.cursor.key
      ensures Skipped(inputs, from, pos[top.src := pos[top.src] + 1], top.cursor.key)
    {
      assert EntryOk(top);
      KeyIrreflexive(top.cursor.key);
      forall i | 0 <= i < |inputs| && i != top.src && pos[i] < |inputs[i]|
        ensures inputs[i][pos[i]].key != top.cursor.key
      {
        assert HasEntry(i);
        var e :| e in heap && e.src == i;
        assert EntryOk(e);
      }
    }

    method EnsurePrimed() returns (ok: bool)
      requires Ready()
      modifies `sources, `cursors, `lastKeys, `loaded, `heap, `parked, `primed
      ensures !ok ==> !AllSorted(inputs)
      ensures ok ==> primed && Ready()
    {
      if primed { return true; }
      primed := true;
      ok := PrimeAll();
    }

    method PrimeAll() returns (ok: bool)
      requires Shape() && parked == map[] && heap == multiset{}
      requires forall i | 0 <= i < |inputs| :: SourceOk(i) && loaded[i] == 0
      modifies `sources, `cursors, `lastKeys, `loaded, `heap, `parked
      ensures !ok ==> !AllSorted(inputs)
      ensures ok ==> Valid({}) && parked == map[]
    {
      ParkAll();
      for src := 0 to |sources|
        invariant Unprimed(src)
      {
        ok := PrimeOne(src);
        if !ok { return; }
      }
      assert parked == map[];
      return true;
    }

    /** Sources from `src` on have not been read. */
    ghost predicate Unprimed(src: nat)
      reads this
    {
      && Valid(parked.Keys)
      && (forall i :: i in parked <==> src <= i < |inputs|)
      && (forall i | i in parked :: parked[i].loaded == 0)
    }

    method PrimeOne(src: nat) returns (ok: bool)
      requires Unprimed(src) && src < |inputs|
      modifies `sources, `cursors, `lastKeys, `loaded, `heap, `parked
      ensures !ok ==> !AllSorted(inputs)
      ensures ok ==> Unprimed(src + 1)
    {
      assert SourceOk(src);
      parked := parked - {src};
      ok := LoadNextBatch(src, parked.Keys);
    }

    ghost method ParkAll()
      requires Shape() && parked == map[] && heap == multiset{}
      requires forall i | 0 <= i < |inputs| :: SourceOk(i) && loaded[i] == 0
      modifies `parked
      ensures Unprimed(0)
    {
      parked := map i | 0 <= i < |inputs| :: Parked(0, cursors[i]);
    }

    /** Everything merged: the output lists the newest-version map of the sources. */
    lemma HeapEmpty()
      requires Valid({}) && heap == multiset{} && MergedSoFar()
      ensures AtEnd() && AllSorted(inputs)
      ensures Lists(merged, NewestMap(Flatten(inputs)))
    {
      forall i | 0 <= i < |inputs| ensures pos[i] == |inputs[i]| && Sorted(inputs[i]) {
        assert SourceOk(i);
        assert pos[i] < |inputs[i]| ==> HasEntry(i);
      }
      MergedAll(inputs, pos, merged);
    }

    /** `next_batch`: merges until a batch is full or every source is used up. */
    method NextBatch() returns (out: Outcome)
      requires Ready()
      modifies this
      ensures inputs == old(inputs)
      ensures out == Unsorted ==> !AllSorted(inputs)
      ensures out != Unsorted ==> Ready()
      ensures out == Exhausted ==> emitted == old(emitted) && Lists(emitted, NewestMap(Flatten(inputs)))
      ensures out == Exhausted ==> AllSorted(inputs)
      ensures out.Batch? ==> 0 < |out.rows| <= BATCH_ROWS && emitted == old(emitted) + out.rows
      ensures out.Batch? && |out.rows| < BATCH_ROWS ==> Lists(emitted, NewestMap(Flatten(inputs)))
      ensures out.Batch? ==> Left(inputs, pos) < old(Left(inputs, pos))
    {
      var ok := EnsurePrimed();
      if !ok { return Unsorted; }
      ok := FillBuffer();
      if !ok { return Unsorted; }
      out := Deliver();
    }

    /** Hands out what the builders hold; nothing there means the merge is over. */
    method Deliver() returns (out: Outcome)
      requires primed && Valid({}) && parked == map[] && MergedSoFar()
      requires merged == emitted + buffered && |buffered| <= BATCH_ROWS
      requires |buffered| < BATCH_ROWS ==> |heap| == 0
      modifies `buffered, `emitted
      ensures out != Unsorted && Ready()
      ensures out == Exhausted ==> emitted == old(emitted) && AllSorted(inputs)
      ensures out == Exhausted ==> Lists(emitted, NewestMap(Flatten(inputs)))
      ensures out.Batch? ==> out.rows == old(buffered) && 0 < |out.rows| && emitted == old(emitted) + out.rows
      ensures out.Batch? && |out.rows| < BATCH_ROWS ==> Lists(emitted, NewestMap(Flatten(inputs)))
    {
      if |heap| == 0 { HeapEmpty(); }
      if |buffered| == 0 { return Exhausted; }
      var rows := TakeOutput();
      return Batch(rows);
    }

    method FillBuffer() returns (ok: bool)
      requires Ready() && primed
      modifies `sources, `cursors, `lastKeys, `loaded, `heap, `pos, `parked, `buffered, `merged
      ensures !ok ==> !AllSorted(inputs)
      ensures ok ==> Valid({}) && parked == map[] && MergedSoFar()
      ensures ok ==> merged == emitted + buffered && |buffered| <= BATCH_ROWS
      ensures ok ==> |buffered| < BATCH_ROWS ==> |heap| == 0
      ensures ok ==> Left(inputs, pos) + |buffered| <= old(Left(inputs, pos))
    {
      while |heap| > 0 && |buffered| < BATCH_ROWS
        invariant Valid({}) && parked == map[] && MergedSoFar()
        invariant merged == emitted + buffered && |buffered| <= BATCH_ROWS
        invariant Left(inputs, pos) + |buffered| <= old(Left(inputs, pos))
        decreases Left(inputs, pos)
      {
        ghost var row;
        ok, row := MergeOne();
        if !ok { return; }
      }
      return true;
    }

    method TakeOutput() returns (rows: seq<Row>)
      modifies `buffered, `emitted
      ensures rows == old(buffered) && buffered == [] && emitted == old(emitted) + rows
    {
      rows := buffered;
      emitted := emitted + buffered;
      buffered := [];
    }
  }

  /** Each source's batches joined. */
  ghost function Inputs(sources: seq<seq<seq<Row>>>): (r: seq<seq<Row>>)
    ensures |r| == |sources|
  {
    seq(|sources|, i requires 0 <= i < |sources| => Flatten(sources[i]))
  }

  /**
   Draining the merge, as compaction and the query stream do: it fails exactly on a source that
   is not strictly increasing, and otherwise lists the newest version of every key of every source.
   */
  method MergeAll(sources: seq<seq<seq<Row>>>) returns (out: Option<seq<seq<Row>>>)
    ensures out.Some? <==> AllSorted(Inputs(sources))
    ensures out.Some? ==> Lists(Flatten(out.value), NewestMap(Flatten(Inputs(sources))))
    ensures out.Some? ==> forall i | 0 <= i < |out.value| :: 0 < |out.value[i]| <= BATCH_ROWS
  {
    var merge := new MergeBatchIter(sources);
    assert merge.inputs == Inputs(sources);
    var batches := [];
    while true
      invariant merge.Ready() && fresh(merge) && merge.inputs == Inputs(sources)
      invariant Flatten(batches) == merge.emitted
      invariant forall i | 0 <= i < |batches| :: 0 < |batches[i]| <= BATCH_ROWS
      decreases Left(merge.inputs, merge.pos)
    {
      var next := merge.NextBatch();
      match next {
        case Unsorted => return None;
        case Exhausted => return Some(batches);
        case Batch(rows) =>
          FlattenConcat(batches, [rows]);
          assert Flatten([rows]) == rows;
          batches := batches + [rows];
      }
    }
  }

  lemma OpenedState(input: seq<Row>, loaded: nat, rest: seq<seq<Row>>, last: Option<Key>,
                    cursor: Cursor, keys: seq<CursorKey>)
    requires SourceState(input, loaded, loaded, rest, last, cursor)
    requires rest != [] && rest[0] != [] && keys == CursorKeys(rest[0])
    requires Sorted(rest[0]) && (last.Some? ==> KeyLess(last.value, rest[0][0].key))
    ensures SourceState(input, loaded + |rest[0]|, loaded, rest[1..],
                        Some(rest[0][|rest[0]| - 1].key), Cursor(Some(rest[0]), keys))
    ensures loaded < |input| && input[loaded] == rest[0][0]
  {
    var batch := rest[0];
    SortedJoin(input, loaded, batch);
    assert input[loaded + 0] == batch[0];
    assert input[loaded + (|batch| - 1)] == batch[|batch| - 1];
  }

  lemma SortedJoin(rows: seq<Row>, l: nat, batch: seq<Row>)
    requires LiesAt(rows, l, batch) && SortedTo(rows, l) && Sorted(batch)
    requires l > 0 && batch != [] ==> KeyLess(rows[l - 1].key, batch[0].key)
    ensures SortedTo(rows, l + |batch|)
  {
    forall i, j | 0 <= i < j < l + |batch| ensures KeyLess(rows[i].key, rows[j].key) {
      if j >= l {
        assert rows[l + (j - l)] == batch[j - l];
        if i >= l {
          assert rows[l + (i - l)] == batch[i - l];
        } else {
          if i < l - 1 { KeyTransitive(rows[i].key, rows[l - 1].key, batch[0].key); }
          if j > l { KeyTransitive(rows[i].key, batch[0].key, batch[j - l].key); }
        }
      }
    }
  }

  lemma NotSorted(rows: seq<Row>, l: nat, batch: seq<Row>)
    requires LiesAt(rows, l, batch)
    requires !Sorted(batch) || (l > 0 && batch != [] && !KeyLess(rows[l - 1].key, batch[0].key))
    ensures !Sorted(rows)
  {
    if !Sorted(batch) {
      var i, j :| 0 <= i < j < |batch| && !KeyLess(batch[i].key, batch[j].key);
      assert rows[l + i] == batch[i] && rows[l + j] == batch[j];
    } else {
      assert rows[l + 0] == batch[0];
    }
  }
}
