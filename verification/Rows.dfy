/**
 The vocabulary every other module shares: keys and their order, row versions, and
 the newest-version map that a bag of rows stands for.
 */
module Rows {

  datatype Option<+T> = None | Some(value: T)

  const I64_MIN: int := -0x8000_0000_0000_0000
  const I64_MAX: int := 0x7fff_ffff_ffff_ffff

  type I64 = x: int | I64_MIN <= x <= I64_MAX
  type Byte = x: int | 0 <= x < 256
  type Bytes = seq<Byte>

  /** A series (its encoded tags) and a timestamp. */
  datatype Key = Key(tags: Bytes, ts: I64)

  /** One version of a key; a missing value is a tombstone. */
  datatype Row = Row(key: Key, seqNo: nat, value: Option<Bytes>)

  // ---------- Key order ----------

  predicate BytesLess(a: Bytes, b: Bytes) {
    if b == [] then false
    else if a == [] then true
    else if a[0] != b[0] then a[0] < b[0]
    else BytesLess(a[1..], b[1..])
  }

  predicate KeyLess(a: Key, b: Key) {
    BytesLess(a.tags, b.tags) || (a.tags == b.tags && a.ts < b.ts)
  }

  predicate KeyLeq(a: Key, b: Key) {
    a == b || KeyLess(a, b)
  }

  lemma {:induction false} BytesIrreflexive(a: Bytes)
    ensures !BytesLess(a, a)
  {
    if a != [] { BytesIrreflexive(a[1..]); }
  }

  lemma {:induction false} BytesTransitive(a: Bytes, b: Bytes, c: Bytes)
    requires BytesLess(a, b) && BytesLess(b, c)
    ensures BytesLess(a, c)
  {
    if a != [] && a[0] == b[0] && b[0] == c[0] {
      BytesTransitive(a[1..], b[1..], c[1..]);
    }
  }

  lemma {:induction false} BytesTotal(a: Bytes, b: Bytes)
    ensures BytesLess(a, b) || a == b || BytesLess(b, a)
  {
    if a != [] && b != [] && a[0] == b[0] {
      BytesTotal(a[1..], b[1..]);
      assert a == [a[0]] + a[1..] && b == [b[0]] + b[1..];
    }
  }

  lemma KeyIrreflexive(a: Key)
    ensures !KeyLess(a, a)
  {
    BytesIrreflexive(a.tags);
  }

  lemma KeyTransitive(a: Key, b: Key, c: Key)
    requires KeyLess(a, b) && KeyLess(b, c)
    ensures KeyLess(a, c)
  {
    if BytesLess(a.tags, b.tags) && BytesLess(b.tags, c.tags) {
      BytesTransitive(a.tags, b.tags, c.tags);
    }
  }

  lemma KeyTotal(a: Key, b: Key)
    ensures KeyLess(a, b) || a == b || KeyLess(b, a)
  {
    BytesTotal(a.tags, b.tags);
  }

  /** One string is a proper prefix of the other, or smaller at the first byte in which they differ. */
  ghost predicate Precedes(a: Bytes, b: Bytes, n: nat) {
    n <= |a| && n < |b| && a[..n] == b[..n] && (n == |a| || a[n] < b[n])
  }

  lemma PrecedesCons(a: Bytes, b: Bytes, n: nat)
    requires a != [] && b != [] && a[0] == b[0]
    ensures Precedes(a, b, n + 1) <==> Precedes(a[1..], b[1..], n)
  {
    if n + 1 <= |a| && n + 1 < |b| {
      assert a[..n + 1] == [a[0]] + a[1..][..n] && b[..n + 1] == [b[0]] + b[1..][..n];
    }
  }

  /** Byte strings are ordered lexicographically. */
  lemma {:induction false} BytesLessIff(a: Bytes, b: Bytes)
    ensures BytesLess(a, b) <==> exists n: nat :: Precedes(a, b, n)
  {
    if b != [] && (a == [] || a[0] != b[0]) {
      assert Precedes(a, b, 0) <==> BytesLess(a, b);
      if n: nat :| Precedes(a, b, n) {
        if n > 0 { assert a[..n][0] == b[..n][0]; }
      }
    } else if b != [] {
      BytesLessIff(a[1..], b[1..]);
      if n: nat :| Precedes(a[1..], b[1..], n) { PrecedesCons(a, b, n); }
      if n: nat :| Precedes(a, b, n) {
        assert n > 0;
        PrecedesCons(a, b, n - 1);
      }
    }
  }

  /** Keys are ordered by their tags first, byte by byte, and then by time. */
  lemma KeyOrderMeans(a: Key, b: Key)
    ensures KeyLess(a, b) <==> (exists n: nat :: Precedes(a.tags, b.tags, n)) || (a.tags == b.tags && a.ts < b.ts)
  {
    BytesLessIff(a.tags, b.tags);
  }

  lemma KeyAsymmetric(a: Key, b: Key)
    requires KeyLess(a, b)
    ensures !KeyLess(b, a) && a != b
  {
    KeyIrreflexive(a);
    if KeyLess(b, a) { KeyTransitive(a, b, a); }
  }

  /** Strictly increasing keys: the order `check_sorted` and the SST builder insist on. */
  predicate Sorted(rows: seq<Row>) {
    forall i, j {:trigger KeyLess(rows[i].key, rows[j].key)} | 0 <= i < j < |rows| ::
      KeyLess(rows[i].key, rows[j].key)
  }

  lemma SortedKeysDistinct(rows: seq<Row>, i: nat, j: nat)
    requires Sorted(rows) && i < |rows| && j < |rows|
    requires rows[i].key == rows[j].key
    ensures i == j
  {
    KeyIrreflexive(rows[i].key);
  }

  /** Two strictly sorted sequences with the same elements are the same sequence. */
  lemma {:induction false} SortedUnique(a: seq<Row>, b: seq<Row>)
    requires Sorted(a) && Sorted(b)
    requires forall r :: r in a <==> r in b
    ensures a == b
  {
    assert a != [] ==> a[0] in b;
    assert b != [] ==> b[0] in a;
    if a != [] {
      var i :| 0 <= i < |b| && b[i] == a[0];
      var j :| 0 <= j < |a| && a[j] == b[0];
      if i > 0 {
        KeyAsymmetric(b[0].key, a[0].key);
      }
      assert a[0] == b[0];
      forall r ensures r in a[1..] <==> r in b[1..] {
        if r in a[1..] { DropHeadMember(a, b, r); }
        if r in b[1..] { DropHeadMember(b, a, r); }
      }
      SortedUnique(a[1..], b[1..]);
    }
  }

  lemma DropHeadMember(a: seq<Row>, b: seq<Row>, r: Row)
    requires Sorted(a) && a != [] && b != [] && a[0] == b[0]
    requires r in a[1..] && r in b
    ensures r in b[1..]
  {
    var i :| 1 <= i < |a| && a[i] == r;
    KeyAsymmetric(a[0].key, a[i].key);
  }

  // ---------- The newest-version map ----------

  /** Keeps the row with the higher sequence number; the earlier one on a tie. */
  function Put(m: map<Key, Row>, r: Row): map<Key, Row> {
    if r.key in m && m[r.key].seqNo >= r.seqNo then m else m[r.key := r]
  }

  /** The map that every fold over rows in the source computes. */
  function NewestMap(rows: seq<Row>): map<Key, Row> {
    if rows == [] then map[]
    else Put(NewestMap(rows[..|rows| - 1]), rows[|rows| - 1])
  }

  /** The entry of a key in the newest-version map. */
  function Newest(rows: seq<Row>, k: Key): Option<Row> {
    if k in NewestMap(rows) then Some(NewestMap(rows)[k]) else None
  }

  /** `rows[i]` is the first of its key's rows that reach the key's highest sequence number. */
  ghost predicate WinsAt(rows: seq<Row>, i: nat)
    requires i < |rows|
  {
    && (forall j | 0 <= j < i && rows[j].key == rows[i].key :: rows[j].seqNo < rows[i].seqNo)
    && (forall j | i < j < |rows| && rows[j].key == rows[i].key :: rows[j].seqNo <= rows[i].seqNo)
  }

  lemma WinsFront(rows: seq<Row>, r: Row, i: nat)
    requires i < |rows| && WinsAt(rows, i) && (r.key == rows[i].key ==> r.seqNo <= rows[i].seqNo)
    ensures WinsAt(rows + [r], i) && (rows + [r])[i] == rows[i]
  {
  }

  lemma WinsLast(rows: seq<Row>, r: Row)
    requires forall j | 0 <= j < |rows| && rows[j].key == r.key :: rows[j].seqNo < r.seqNo
    ensures WinsAt(rows + [r], |rows|)
  {
  }

  /** `r` is the winner of its key. */
  ghost predicate Wins(rows: seq<Row>, r: Row) {
    exists i :: 0 <= i < |rows| && rows[i] == r && WinsAt(rows, i)
  }

  ghost predicate Occurs(rows: seq<Row>, k: Key) {
    exists i :: 0 <= i < |rows| && rows[i].key == k
  }

  lemma OccursSnoc(rows: seq<Row>, r: Row, k: Key)
    ensures Occurs(rows + [r], k) <==> Occurs(rows, k) || r.key == k
  {
    if i :| 0 <= i < |rows| && rows[i].key == k { assert (rows + [r])[i].key == k; }
    if r.key == k { assert (rows + [r])[|rows|].key == k; }
  }

  /** One more row: it wins if it is strictly newer, or the first of its key. */
  lemma WinsSnoc(rows: seq<Row>, r: Row, k: Key)
    requires Occurs(rows, k) <==> k in NewestMap(rows)
    requires k in NewestMap(rows) ==> NewestMap(rows)[k].key == k && Wins(rows, NewestMap(rows)[k])
    ensures k in Put(NewestMap(rows), r) ==>
              Put(NewestMap(rows), r)[k].key == k && Wins(rows + [r], Put(NewestMap(rows), r)[k])
  {
    var m := NewestMap(rows);
    if k in m {
      var i :| 0 <= i < |rows| && rows[i] == m[k] && WinsAt(rows, i);
      if r.key == k && r.seqNo > m[k].seqNo {
        WinsLast(rows, r);
        assert (rows + [r])[|rows|] == r;
      } else {
        WinsFront(rows, r, i);
      }
    } else if r.key == k {
      WinsLast(rows, r);
      assert (rows + [r])[|rows|] == r;
    }
  }

  /** What the fold means: exactly the keys that occur, each with its first newest row. */
  lemma {:induction false} NewestMapMeaning(rows: seq<Row>, k: Key)
    ensures k in NewestMap(rows) <==> exists i :: 0 <= i < |rows| && rows[i].key == k
    ensures k in NewestMap(rows) ==> NewestMap(rows)[k].key == k
    ensures k in NewestMap(rows) ==>
              exists i :: 0 <= i < |rows| && rows[i] == NewestMap(rows)[k] && WinsAt(rows, i)
  {
    if rows != [] {
      var front, last := rows[..|rows| - 1], rows[|rows| - 1];
      NewestMapMeaning(front, k);
      assert Occurs(front, k) <==> k in NewestMap(front);
      OccursSnoc(front, last, k);
      WinsSnoc(front, last, k);
      assert rows == front + [last];
      assert Occurs(rows, k) <==> k in NewestMap(rows);
    }
  }

  /** The winner is unique, so it is the map's entry. */
  lemma WinnerIsNewest(rows: seq<Row>, i: nat)
    requires i < |rows| && WinsAt(rows, i)
    ensures rows[i].key in NewestMap(rows) && NewestMap(rows)[rows[i].key] == rows[i]
  {
    NewestMapMeaning(rows, rows[i].key);
  }

  /** The newest row of the key, the first one on a tie, has the value `x` and is no tombstone. */
  ghost predicate HasValue(rows: seq<Row>, k: Key, x: Bytes) {
    exists i :: 0 <= i < |rows| && rows[i].key == k && rows[i].value == Some(x) && WinsAt(rows, i)
  }

  lemma HasValueIff(rows: seq<Row>, k: Key, x: Bytes)
    ensures HasValue(rows, k, x) <==> Newest(rows, k).Some? && Newest(rows, k).value.value == Some(x)
  {
    NewestMapMeaning(rows, k);
    if i :| 0 <= i < |rows| && rows[i].key == k && rows[i].value == Some(x) && WinsAt(rows, i) {
      WinnerIsNewest(rows, i);
    }
  }

  lemma HasValueMeans(rows: seq<Row>, k: Key, v: Option<Bytes>)
    requires v == if Newest(rows, k).Some? then Newest(rows, k).value.value else None
    ensures forall x :: v == Some(x) <==> HasValue(rows, k, x)
  {
    forall x ensures v == Some(x) <==> HasValue(rows, k, x) { HasValueIff(rows, k, x); }
  }

  lemma NewestIsLargest(rows: seq<Row>, r: Row)
    requires r in rows
    ensures r.key in NewestMap(rows) && NewestMap(rows)[r.key] in rows
    ensures NewestMap(rows)[r.key].seqNo >= r.seqNo
  {
    NewestMapMeaning(rows, r.key);
  }

  /** `out` lists the map's rows in key order: the form of a merged or materialised batch. */
  predicate Lists(out: seq<Row>, m: map<Key, Row>) {
    && Sorted(out)
    && (forall r | r in out :: r.key in m && m[r.key] == r)
    && (forall k | k in m :: m[k] in out)
  }

  /** Rows that are already one per key are listed by sorting them. */
  lemma SortedListing(rows: seq<Row>, out: seq<Row>)
    requires Sorted(out) && forall r :: r in rows <==> r in out
    ensures Lists(out, NewestMap(rows))
  {
    forall r | r in out ensures r.key in NewestMap(rows) && NewestMap(rows)[r.key] == r {
      NewestIsLargest(rows, r);
      NewestMapMeaning(rows, r.key);
      OnePerKey(out, r, NewestMap(rows)[r.key]);
    }
    forall k | k in NewestMap(rows) ensures NewestMap(rows)[k] in out {
      NewestMapMeaning(rows, k);
    }
  }

  lemma OnePerKey(out: seq<Row>, p: Row, q: Row)
    requires Sorted(out) && p in out && q in out && p.key == q.key
    ensures p == q
  {
    var i :| 0 <= i < |out| && out[i] == p;
    var j :| 0 <= j < |out| && out[j] == q;
    SortedKeysDistinct(out, i, j);
  }

  /** The newest version of a key over two runs of rows: the later run wins only if strictly newer. */
  lemma {:induction false} NewestMapConcat(a: seq<Row>, b: seq<Row>, k: Key)
    ensures k in NewestMap(a + b) <==> k in NewestMap(a) || k in NewestMap(b)
    ensures k in NewestMap(b) && (k in NewestMap(a) ==> NewestMap(b)[k].seqNo > NewestMap(a)[k].seqNo) ==>
              NewestMap(a + b)[k] == NewestMap(b)[k]
    ensures k in NewestMap(a) && (k in NewestMap(b) ==> NewestMap(b)[k].seqNo <= NewestMap(a)[k].seqNo) ==>
              NewestMap(a + b)[k] == NewestMap(a)[k]
  {
    if b == [] {
      assert a + b == a;
    } else {
      var n := |b| - 1;
      assert (a + b)[..|a + b| - 1] == a + b[..n];
      NewestMapConcat(a, b[..n], k);
    }
  }

  lemma NewestMapSnoc(rows: seq<Row>, r: Row)
    ensures NewestMap(rows + [r]) == Put(NewestMap(rows), r)
  {
    assert (rows + [r])[..|rows|] == rows;
  }

  /** The newest version of every key in a log: what the replay into a hash map computes. */
  method LatestOf(rows: seq<Row>) returns (latest: map<Key, Row>)
    ensures latest == NewestMap(rows)
  {
    latest := map[];
    for i := 0 to |rows|
      invariant latest == NewestMap(rows[..i])
    {
      NewestMapSnoc(rows[..i], rows[i]);
      assert rows[..i + 1] == rows[..i] + [rows[i]];
      if !(rows[i].key in latest && latest[rows[i].key].seqNo >= rows[i].seqNo) {
        latest := latest[rows[i].key := rows[i]];
      }
    }
    assert rows[..|rows|] == rows;
  }

  // ---------- Sequences ----------

  lemma SeqAssoc<T>(a: seq<T>, b: seq<T>, c: seq<T>)
    ensures (a + b) + c == a + (b + c) && a + [] == a && [] + a == a
  {
  }

  lemma TakeAll<T>(s: seq<T>)
    ensures s[..|s|] == s
  {
  }

  lemma TakeNext<T>(a: seq<T>, b: seq<T>, i: nat)
    requires i < |b|
    ensures a + b[..i + 1] == a + b[..i] + [b[i]]
  {
  }

  predicate Rising(ns: seq<nat>) {
    forall i, j | 0 <= i < j < |ns| :: ns[i] < ns[j]
  }

  // ---------- The least element of a set ----------

  lemma Member<T>(s: set<T>) returns (x: T)
    requires s != {}
    ensures x in s
  {
    x :| x in s;
  }

  ghost predicate TotalOrder<T(!new)>(less: (T, T) -> bool) {
    && (forall a, b :: less(a, b) || a == b || less(b, a))
    && (forall a, b, c :: less(a, b) && less(b, c) ==> less(a, c))
  }

  /** What makes `pop_first` of an ordered map, and the head of a sorted list of names, well defined. */
  lemma Least<T(!new)>(s: set<T>, less: (T, T) -> bool) returns (least: T)
    requires s != {} && TotalOrder(less)
    ensures least in s && forall x | x in s :: x == least || less(least, x)
    decreases s
  {
    var first := Member(s);
    least := first;
    if s != {first} {
      var rest := Least(s - {first}, less);
      if less(rest, first) { least := rest; }
      forall x | x in s ensures x == least || less(least, x) {
        if x != first { assert x in s - {first}; }
      }
    }
  }

  lemma IntOrder()
    ensures TotalOrder((a: int, b: int) => a < b)
  {
  }

  lemma BytesOrder()
    ensures TotalOrder(BytesLess)
  {
    forall a, b ensures BytesLess(a, b) || a == b || BytesLess(b, a) { BytesTotal(a, b); }
    forall a, b, c | BytesLess(a, b) && BytesLess(b, c) ensures BytesLess(a, c) { BytesTransitive(a, b, c); }
  }

  lemma KeyOrder()
    ensures TotalOrder(KeyLess)
  {
    forall a, b ensures KeyLess(a, b) || a == b || KeyLess(b, a) { KeyTotal(a, b); }
    forall a, b, c | KeyLess(a, b) && KeyLess(b, c) ensures KeyLess(a, c) { KeyTransitive(a, b, c); }
  }

  // ---------- Batches ----------

  function Flatten<T>(ss: seq<seq<T>>): seq<T> {
    if ss == [] then [] else ss[0] + Flatten(ss[1..])
  }

  lemma {:induction false} FlattenConcat<T>(a: seq<seq<T>>, b: seq<seq<T>>)
    ensures Flatten(a + b) == Flatten(a) + Flatten(b)
  {
    if a == [] {
      assert a + b == b;
    } else {
      calc {
        Flatten(a + b);
        { assert (a + b)[1..] == a[1..] + b; }
        a[0] + Flatten(a[1..] + b);
        { FlattenConcat(a[1..], b); }
        a[0] + (Flatten(a[1..]) + Flatten(b));
        (a[0] + Flatten(a[1..])) + Flatten(b);
      }
    }
  }

  lemma FlattenSingle<T>(s: seq<T>)
    ensures Flatten([s]) == s
  {
    assert [s][1..] == [] && s + [] == s;
  }

  lemma FlattenSnoc<T>(ss: seq<seq<T>>, s: seq<T>)
    ensures Flatten(ss + [s]) == Flatten(ss) + s
  {
    FlattenConcat(ss, [s]);
    FlattenSingle(s);
  }

  lemma FlattenTake<T>(ss: seq<seq<T>>, i: nat)
    requires i < |ss|
    ensures Flatten(ss[..i + 1]) == Flatten(ss[..i]) + ss[i]
  {
    FlattenSnoc(ss[..i], ss[i]);
    assert ss[..i + 1] == ss[..i] + [ss[i]];
  }

  lemma {:induction false} FlattenMember<T>(ss: seq<seq<T>>, x: T)
    ensures x in Flatten(ss) <==> exists i :: 0 <= i < |ss| && x in ss[i]
  {
    if ss != [] {
      FlattenMember(ss[1..], x);
      if exists i :: 0 <= i < |ss| && x in ss[i] {
        var i :| 0 <= i < |ss| && x in ss[i];
        if i > 0 { assert ss[1..][i - 1] == ss[i]; }
      }
      if x in Flatten(ss[1..]) {
        var i :| 0 <= i < |ss| - 1 && x in ss[1..][i];
        assert ss[i + 1] == ss[1..][i];
      }
    }
  }

  // ---------- Expiry ----------

  /** Without a cutoff nothing expires, just as with the smallest one. */
  function Bound(cutoff: Option<I64>): I64 {
    if cutoff.Some? then cutoff.value else I64_MIN
  }

  /** Older than the cutoff. */
  predicate Expired(k: Key, cutoff: I64) {
    k.ts < cutoff
  }

  /** What is left of a map once expired keys are hidden. */
  function View(m: map<Key, Row>, cutoff: I64): map<Key, Row> {
    map k | k in m && !Expired(k, cutoff) :: m[k]
  }

  /** The rows a scan from the cutoff on yields. */
  function Unexpired(rows: seq<Row>, cutoff: I64): seq<Row> {
    if rows == [] then []
    else if Expired(rows[0].key, cutoff) then Unexpired(rows[1..], cutoff)
    else [rows[0]] + Unexpired(rows[1..], cutoff)
  }

  lemma {:induction false} UnexpiredMembers(rows: seq<Row>, cutoff: I64)
    ensures forall r :: r in Unexpired(rows, cutoff) <==> r in rows && !Expired(r.key, cutoff)
  {
    if rows != [] {
      UnexpiredMembers(rows[1..], cutoff);
      assert rows == [rows[0]] + rows[1..];
    }
  }

  lemma {:induction false} UnexpiredAll(rows: seq<Row>)
    ensures Unexpired(rows, I64_MIN) == rows
  {
    if rows != [] { UnexpiredAll(rows[1..]); }
  }

  // ---------- Sets of rows ----------

  ghost function RowSet(rows: seq<Row>): set<Row> {
    set r | r in rows
  }

  ghost predicate IsNewest(s: set<Row>, r: Row) {
    r in s && forall q | q in s && q.key == r.key :: q.seqNo <= r.seqNo
  }

  /** Sequence numbers identify the rows that have not expired: equal number, identical row. */
  ghost predicate Consistent(s: set<Row>, floor: I64) {
    forall p, q | p in s && q in s && !Expired(p.key, floor) && !Expired(q.key, floor) && p.seqNo == q.seqNo :: p == q
  }

  /** `c` holds nothing foreign to `h` and every newest row of `h` that has not expired. */
  ghost predicate Covers(h: set<Row>, c: set<Row>, floor: I64) {
    c <= h && forall r | IsNewest(h, r) && !Expired(r.key, floor) :: r in c
  }

  lemma {:induction false} NewestExists(s: set<Row>, r: Row) returns (n: Row)
    requires r in s
    ensures IsNewest(s, n) && n.key == r.key && n.seqNo >= r.seqNo
    decreases s
  {
    if IsNewest(s, r) {
      n := r;
    } else {
      var q :| q in s && q.key == r.key && q.seqNo > r.seqNo;
      n := NewestExists(s - {r}, q);
      assert forall p | p in s && p.key == n.key :: p == r || p in s - {r};
    }
  }

  lemma MapEntryIsNewest(rows: seq<Row>, k: Key)
    requires k in NewestMap(rows)
    ensures IsNewest(RowSet(rows), NewestMap(rows)[k]) && NewestMap(rows)[k].key == k
  {
    NewestMapMeaning(rows, k);
    forall q | q in RowSet(rows) && q.key == k ensures q.seqNo <= NewestMap(rows)[k].seqNo {
      NewestIsLargest(rows, q);
    }
  }

  lemma NewestIsMapEntry(rows: seq<Row>, r: Row, floor: I64)
    requires Consistent(RowSet(rows), floor) && IsNewest(RowSet(rows), r) && !Expired(r.key, floor)
    ensures r.key in NewestMap(rows) && NewestMap(rows)[r.key] == r
  {
    NewestIsLargest(rows, r);
    var n := NewestMap(rows)[r.key];
    assert n in RowSet(rows);
    NewestMapMeaning(rows, r.key);
  }

  /** A cover has the same newest version of every key that has not expired. */
  lemma CoverSameEntry(h: seq<Row>, c: seq<Row>, floor: I64, k: Key)
    requires Consistent(RowSet(h), floor) && Covers(RowSet(h), RowSet(c), floor) && !Expired(k, floor)
    ensures k in NewestMap(h) <==> k in NewestMap(c)
    ensures k in NewestMap(h) ==> NewestMap(h)[k] == NewestMap(c)[k]
  {
    if k in NewestMap(h) {
      var r := NewestMap(h)[k];
      MapEntryIsNewest(h, k);
      assert r in RowSet(c);
      assert IsNewest(RowSet(c), r);
      NewestIsMapEntry(c, r, floor);
    }
    if k in NewestMap(c) {
      MapEntryIsNewest(c, k);
      assert NewestMap(c)[k] in RowSet(h);
      NewestIsLargest(h, NewestMap(c)[k]);
    }
  }

  lemma CoverSameView(h: seq<Row>, c: seq<Row>, floor: I64)
    requires Consistent(RowSet(h), floor) && Covers(RowSet(h), RowSet(c), floor)
    ensures View(NewestMap(h), floor) == View(NewestMap(c), floor)
  {
    forall k | !Expired(k, floor)
      ensures k in NewestMap(h) <==> k in NewestMap(c)
      ensures k in NewestMap(h) ==> NewestMap(h)[k] == NewestMap(c)[k]
    {
      CoverSameEntry(h, c, floor, k);
    }
  }

  lemma SameViewNewest(a: seq<Row>, b: seq<Row>, floor: I64, k: Key)
    requires View(NewestMap(a), floor) == View(NewestMap(b), floor) && !Expired(k, floor)
    ensures Newest(a, k) == Newest(b, k)
  {
    assert k in NewestMap(a) <==> k in View(NewestMap(a), floor);
    assert k in NewestMap(b) <==> k in View(NewestMap(b), floor);
  }

  /** With the smallest floor nothing is expired, and the view is the whole map. */
  lemma WholeView(m: map<Key, Row>)
    ensures View(m, I64_MIN) == m
  {
  }

  lemma ViewNarrows(a: map<Key, Row>, b: map<Key, Row>, floor: I64, cutoff: I64)
    requires View(a, floor) == View(b, floor) && floor <= cutoff
    ensures View(a, cutoff) == View(b, cutoff)
  {
    forall k: Key | !Expired(k, cutoff)
      ensures k in a <==> k in b
      ensures k in a ==> a[k] == b[k]
    {
      assert k in a <==> k in View(a, floor);
      assert k in b <==> k in View(b, floor);
      if k in a { assert View(a, floor)[k] == a[k] && View(b, floor)[k] == b[k]; }
    }
  }

  /** What has expired stays expired, so a later floor asks for less. */
  lemma CoverLater(h: set<Row>, c: set<Row>, floor: I64, later: I64)
    requires Covers(h, c, floor) && floor <= later
    ensures Covers(h, c, later)
  {
  }

  /** Replacing some rows of a cover by rows that keep their newest ones is again a cover. */
  lemma CoverReplace(h: set<Row>, c: set<Row>, group: set<Row>, kept: set<Row>, c': set<Row>, floor: I64)
    requires Covers(h, c, floor) && group <= h && Covers(group, kept, floor)
    requires c' <= h
    requires forall r | r in c :: r in c' || r in group
    requires kept <= c'
    ensures Covers(h, c', floor)
  {
    forall r | IsNewest(h, r) && !Expired(r.key, floor) ensures r in c' {
      if r in group { assert IsNewest(group, r); }
    }
  }

  lemma CoverExtend(h: set<Row>, c: set<Row>, more: set<Row>, floor: I64)
    requires Covers(h, c, floor)
    ensures Covers(h + more, c + more, floor)
  {
    forall r | IsNewest(h + more, r) && !Expired(r.key, floor) ensures r in c + more {
      if r !in more { assert IsNewest(h, r); }
    }
  }

  /** A sorted listing of the newest-version map covers the rows it was made from. */
  lemma ListingCovers(rows: seq<Row>, out: seq<Row>, floor: I64)
    requires Consistent(RowSet(rows), floor) && Lists(out, NewestMap(rows))
    ensures Covers(RowSet(rows), RowSet(out), floor)
  {
    forall r | r in RowSet(out) ensures r in RowSet(rows) {
      NewestMapMeaning(rows, r.key);
    }
    forall r | IsNewest(RowSet(rows), r) && !Expired(r.key, floor) ensures r in RowSet(out) {
      NewestIsMapEntry(rows, r, floor);
    }
  }

  // ---------- Sequence numbers ----------

  function MaxSeq(rows: seq<Row>): nat {
    if rows == [] then 0
    else if MaxSeq(rows[1..]) > rows[0].seqNo then MaxSeq(rows[1..]) else rows[0].seqNo
  }

  lemma {:induction false} MaxSeqIsMax(rows: seq<Row>)
    ensures forall r | r in rows :: r.seqNo <= MaxSeq(rows)
    ensures rows != [] ==> exists r :: r in rows && r.seqNo == MaxSeq(rows)
    ensures rows == [] ==> MaxSeq(rows) == 0
  {
    if rows != [] {
      MaxSeqIsMax(rows[1..]);
      assert rows == [rows[0]] + rows[1..];
      assert rows[0] in rows && forall r | r in rows[1..] :: r in rows;
      if MaxSeq(rows[1..]) > rows[0].seqNo {
        var top :| top in rows[1..] && top.seqNo == MaxSeq(rows[1..]);
        assert top in rows;
      }
    }
  }

  lemma {:induction false} MaxSeqSnoc(rows: seq<Row>, r: Row)
    ensures MaxSeq(rows + [r]) == if r.seqNo > MaxSeq(rows) then r.seqNo else MaxSeq(rows)
  {
    if rows == [] {
      assert rows + [r] == [r] && [r][1..] == [];
    } else {
      assert (rows + [r])[1..] == rows[1..] + [r];
      MaxSeqSnoc(rows[1..], r);
    }
  }

  lemma {:induction false} MaxSeqConcat(a: seq<Row>, b: seq<Row>)
    ensures MaxSeq(a + b) == if MaxSeq(a) > MaxSeq(b) then MaxSeq(a) else MaxSeq(b)
  {
    if a == [] {
      assert a + b == b;
    } else {
      assert (a + b)[1..] == a[1..] + b;
      MaxSeqConcat(a[1..], b);
    }
  }
}
