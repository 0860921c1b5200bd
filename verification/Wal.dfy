/**
 The write-ahead log (src/memtable/wal.rs): operations encoded into a payload, payloads framed
 with a length and a checksum, and recovery that reads frames until one is not whole.
 */
module Wal {
  import opened Rows

  const U16_SIZE: nat := 0x1_0000
  const U32_SIZE: nat := 0x1_0000_0000
  const U64_SIZE: nat := 0x1_0000_0000_0000_0000

  const KIND_INSERT: Byte := 0
  const KIND_UPDATE: Byte := 1
  const KIND_DELETE: Byte := 2

  const MAX_FRAME_LEN: nat := 0x1000_0000

  datatype Operation =
    | Insert(key: Key, seqNo: nat, value: Bytes)
    | Update(key: Key, seqNo: nat, value: Bytes)
    | Delete(key: Key, seqNo: nat)

  // ---------- Little-endian integers ----------

  function Pow256(n: nat): (r: nat)
    ensures r > 0
  {
    if n == 0 then 1 else 256 * Pow256(n - 1)
  }

  /** The low `n` bytes of `v`, least significant first: a truncating cast and `to_le_bytes`. */
  function Le(n: nat, v: nat): (r: Bytes)
    ensures |r| == n
    decreases v, n
  {
    if n == 0 then [] else [v % 256] + Le(n - 1, v / 256)
  }

  function FromLe(s: Bytes): nat {
    if s == [] then 0 else s[0] + 256 * FromLe(s[1..])
  }

  lemma {:induction false} LeTruncates(n: nat, v: nat)
    ensures FromLe(Le(n, v)) == v % Pow256(n)
  {
    if n > 0 {
      LeTruncates(n - 1, v / 256);
      assert Le(n, v)[1..] == Le(n - 1, v / 256);
      DivModStep(v, Pow256(n - 1));
    }
  }

  lemma DivModStep(v: nat, p: nat)
    requires p > 0
    ensures v % (256 * p) == v % 256 + 256 * ((v / 256) % p)
  {
    var q, r := v / 256, v % 256;
    var a, b := q / p, q % p;
    assert q == p * a + b;
    assert v == 256 * (p * a + b) + r;
    assert 256 * (p * a) == (256 * p) * a;
    var m := 256 * p;
    assert v == m * a + (256 * b + r);
    assert 0 <= 256 * b + r < m;
    ModUnique(v, m, a, 256 * b + r);
  }

  lemma ModUnique(v: nat, m: nat, a: nat, r: nat)
    requires m > 0 && r < m && v == m * a + r
    ensures v % m == r
  {
    var q, s := v / m, v % m;
    var d := q - a;
    assert m * q == m * a + m * d;
    MulBound(m, d);
  }

  lemma MulBound(m: nat, d: int)
    ensures d >= 1 ==> m * d >= m
    ensures d <= -1 ==> m * d + m <= 0
  {
  }

  lemma PowSizes()
    ensures Pow256(2) == U16_SIZE && Pow256(4) == U32_SIZE && Pow256(8) == U64_SIZE
  {
    assert Pow256(2) == 256 * Pow256(1);
    assert Pow256(4) == 256 * Pow256(3) && Pow256(3) == 256 * Pow256(2);
    assert Pow256(8) == 256 * Pow256(7) && Pow256(7) == 256 * Pow256(6);
    assert Pow256(6) == 256 * Pow256(5) && Pow256(5) == 256 * Pow256(4);
  }

  /** The least significant byte comes first. */
  lemma LeastFirst(s: Bytes)
    ensures |s| == 2 ==> FromLe(s) == s[0] + 0x100 * (s[1] as int)
    ensures |s| == 4 ==> FromLe(s) == s[0] + 0x100 * (s[1] as int) + 0x1_0000 * (s[2] as int) + 0x100_0000 * (s[3] as int)
    ensures |s| == 8 ==> FromLe(s) == FromLe(s[..4]) + U32_SIZE * FromLe(s[4..])
  {
    if |s| == 2 { Unfold2(s); }
    if |s| == 4 { Unfold4(s); }
    if |s| == 8 {
      FromLeConcat(s[..4], s[4..]);
      PowSizes();
      assert s == s[..4] + s[4..];
    }
  }

  lemma Unfold2(s: Bytes)
    requires |s| == 2
    ensures FromLe(s) == s[0] + 0x100 * (s[1] as int)
  {
    assert FromLe(s[1..]) == s[1] + 256 * FromLe(s[1..][1..]);
  }

  lemma Unfold4(s: Bytes)
    requires |s| == 4
    ensures FromLe(s) == s[0] + 0x100 * (s[1] as int) + 0x1_0000 * (s[2] as int) + 0x100_0000 * (s[3] as int)
  {
    FromLeConcat(s[..2], s[2..]);
    assert s == s[..2] + s[2..];
    Unfold2(s[..2]);
    Unfold2(s[2..]);
    PowSizes();
  }

  lemma {:induction false} FromLeConcat(a: Bytes, b: Bytes)
    ensures FromLe(a + b) == FromLe(a) + Pow256(|a|) * FromLe(b)
  {
    if a == [] {
      assert a + b == b;
    } else {
      assert (a + b)[1..] == a[1..] + b;
      FromLeConcat(a[1..], b);
      assert 256 * (Pow256(|a| - 1) * FromLe(b)) == Pow256(|a|) * FromLe(b);
    }
  }

  lemma {:induction false} LeDetermined(a: Bytes, b: Bytes)
    requires |a| == |b| && FromLe(a) == FromLe(b)
    ensures a == b
  {
    if a != [] {
      assert a[0] == FromLe(a) % 256 && b[0] == FromLe(b) % 256;
      LeDetermined(a[1..], b[1..]);
      assert a == [a[0]] + a[1..] && b == [b[0]] + b[1..];
    }
  }

  /** Two's complement: `ts.to_le_bytes()` and `v as i64`. */
  function ToU64(x: I64): (r: nat)
    ensures r < U64_SIZE && r == x % U64_SIZE
  {
    if x < 0 then x + U64_SIZE else x
  }

  function ToI64(v: nat): I64 {
    if v <= I64_MAX then v else if v < U64_SIZE then v - U64_SIZE else 0
  }

  // ---------- Encoding ----------

  function EncodeHead(key: Key, seqNo: nat): Bytes {
    Le(2, |key.tags|) + (key.tags + (Le(8, ToU64(key.ts)) + Le(8, seqNo)))
  }

  function EncodeValue(value: Bytes): Bytes {
    Le(4, |value|) + value
  }

  /** `encode_kv`. */
  function EncodeKv(key: Key, seqNo: nat, value: Option<Bytes>): Bytes {
    EncodeHead(key, seqNo) + if value.Some? then EncodeValue(value.value) else []
  }

  function EncodeOp(op: Operation): Bytes {
    match op
    case Insert(key, seqNo, value) => [KIND_INSERT] + EncodeKv(key, seqNo, Some(value))
    case Update(key, seqNo, value) => [KIND_UPDATE] + EncodeKv(key, seqNo, Some(value))
    case Delete(key, seqNo) => [KIND_DELETE] + EncodeKv(key, seqNo, None)
  }

  function Each<T>(encode: T -> Bytes, items: seq<T>): Bytes {
    if items == [] then [] else encode(items[0]) + Each(encode, items[1..])
  }

  function EncodeAll(ops: seq<Operation>): Bytes {
    Each(EncodeOp, ops)
  }

  function EncodePayload(ops: seq<Operation>): Bytes {
    Le(4, |ops|) + EncodeAll(ops)
  }

  /** `encode_ops`: the loop that extends the buffer. */
  method EncodeOps(ops: seq<Operation>) returns (buf: Bytes)
    ensures buf == EncodePayload(ops)
  {
    buf := Le(4, |ops|);
    for i := 0 to |ops|
      invariant buf + EncodeAll(ops[i..]) == EncodePayload(ops)
    {
      assert ops[i..][0] == ops[i] && ops[i..][1..] == ops[i + 1..];
      assert buf + (EncodeOp(ops[i]) + EncodeAll(ops[i + 1..])) == buf + EncodeOp(ops[i]) + EncodeAll(ops[i + 1..]);
      buf := buf + EncodeOp(ops[i]);
    }
    assert buf + [] == buf;
  }

  // ---------- Decoding ----------

  datatype Read<T> = Short | Read(value: T, rest: Bytes)

  /** `read_u8` to `read_u64`: a fixed-width integer, or nothing if the cursor is too short. */
  function ReadInt(n: nat, d: Bytes): Read<nat> {
    if |d| < n then Short else Read(FromLe(d[..n]), d[n..])
  }

  function ReadVec(n: nat, d: Bytes): Read<Bytes> {
    if |d| < n then Short else Read(d[..n], d[n..])
  }

  /** The fields every kind shares. */
  function ReadHead(d: Bytes): Read<(Key, nat)> {
    var len := ReadInt(2, d);
    if len.Short? then Short else
    var tags := ReadVec(len.value, len.rest);
    if tags.Short? then Short else
    var ts := ReadInt(8, tags.rest);
    if ts.Short? then Short else
    var seqNo := ReadInt(8, ts.rest);
    if seqNo.Short? then Short else
    Read((Key(tags.value, ToI64(ts.value)), seqNo.value), seqNo.rest)
  }

  function ReadValue(d: Bytes): Read<Bytes> {
    var len := ReadInt(4, d);
    if len.Short? then Short else ReadVec(len.value, len.rest)
  }

  /** One turn of the loop in `decode_ops`; an unknown kind reads as an insert. */
  function DecodeOp(d: Bytes): Read<Operation> {
    if d == [] then Short else
    var kind := d[0];
    var head := ReadHead(d[1..]);
    if head.Short? then Short else
    var (key, seqNo) := head.value;
    if kind == KIND_DELETE then Read(Delete(key, seqNo), head.rest) else
    var value := ReadValue(head.rest);
    if value.Short? then Short else
    Read(if kind == KIND_UPDATE then Update(key, seqNo, value.value) else Insert(key, seqNo, value.value), value.rest)
  }

  /** Up to `count` items, stopping at the first one that is cut short. */
  function Repeat<T>(step: Bytes -> Read<T>, count: nat, d: Bytes): seq<T> {
    if count == 0 || step(d).Short? then [] else [step(d).value] + Repeat(step, count - 1, step(d).rest)
  }

  function Decode(payload: Bytes): seq<Operation> {
    var count := ReadInt(4, payload);
    if count.Short? then [] else Repeat(DecodeOp, count.value, count.rest)
  }

  /** `decode_ops`: a cursor over the payload, stopping at the first field that is cut short. */
  method DecodeOps(payload: Bytes) returns (out: seq<Operation>)
    ensures out == Decode(payload)
  {
    out := [];
    var count := ReadInt(4, payload);
    if count.Short? { return; }
    out := RepeatLoop(DecodeOp, count.value, count.rest);
  }

  method RepeatLoop<T>(step: Bytes -> Read<T>, count: nat, payload: Bytes) returns (out: seq<T>)
    ensures out == Repeat(step, count, payload)
  {
    out := [];
    var left, d := count, payload;
    while left > 0
      invariant out + Repeat(step, left, d) == Repeat(step, count, payload)
    {
      var r := step(d);
      if r.Short? { break; }
      assert out + ([r.value] + Repeat(step, left - 1, r.rest)) == (out + [r.value]) + Repeat(step, left - 1, r.rest);
      out := out + [r.value];
      left, d := left - 1, r.rest;
    }
    assert out + [] == out;
  }

  // ---------- Encode, then decode ----------

  /** What the length and sequence fields of the format can hold. */
  predicate Fits(op: Operation) {
    && |op.key.tags| < U16_SIZE && op.seqNo < U64_SIZE
    && (op.Delete? || |op.value| < U32_SIZE)
  }

  predicate EachFits(ops: seq<Operation>) {
    forall i | 0 <= i < |ops| :: Fits(ops[i])
  }

  predicate AllFit(ops: seq<Operation>) {
    |ops| < U32_SIZE && EachFits(ops)
  }

  lemma ReadIntBack(n: nat, v: nat, rest: Bytes)
    requires v < Pow256(n)
    ensures ReadInt(n, Le(n, v) + rest) == Read(v, rest)
  {
    LeTruncates(n, v);
    ModSmall(v, Pow256(n));
    assert (Le(n, v) + rest)[..n] == Le(n, v);
    assert (Le(n, v) + rest)[n..] == rest;
  }

  lemma ModSmall(v: nat, m: nat)
    requires v < m
    ensures v % m == v
  {
  }

  lemma ReadVecBack(b: Bytes, rest: Bytes)
    ensures ReadVec(|b|, b + rest) == Read(b, rest)
  {
    assert (b + rest)[..|b|] == b;
    assert (b + rest)[|b|..] == rest;
  }

  lemma U64Back(x: I64)
    ensures ToI64(ToU64(x)) == x
  {
  }

  lemma ReadHeadBack(key: Key, seqNo: nat, rest: Bytes)
    requires |key.tags| < U16_SIZE && seqNo < U64_SIZE
    ensures ReadHead(EncodeHead(key, seqNo) + rest) == Read((key, seqNo), rest)
  {
    PowSizes();
    var d3 := Le(8, seqNo) + rest;
    var d2 := Le(8, ToU64(key.ts)) + d3;
    var d1 := key.tags + d2;
    SeqAssoc(Le(8, ToU64(key.ts)), Le(8, seqNo), rest);
    SeqAssoc(key.tags, Le(8, ToU64(key.ts)) + Le(8, seqNo), rest);
    SeqAssoc(Le(2, |key.tags|), key.tags + (Le(8, ToU64(key.ts)) + Le(8, seqNo)), rest);
    assert EncodeHead(key, seqNo) + rest == Le(2, |key.tags|) + d1;
    ReadIntBack(2, |key.tags|, d1);
    ReadVecBack(key.tags, d2);
    ReadIntBack(8, ToU64(key.ts), d3);
    ReadIntBack(8, seqNo, rest);
    U64Back(key.ts);
  }

  lemma ReadValueBack(value: Bytes, rest: Bytes)
    requires |value| < U32_SIZE
    ensures ReadValue(EncodeValue(value) + rest) == Read(value, rest)
  {
    PowSizes();
    SeqAssoc(Le(4, |value|), value, rest);
    ReadIntBack(4, |value|, value + rest);
    ReadVecBack(value, rest);
  }

  lemma ConsTail(kind: Byte, x: Bytes, rest: Bytes)
    ensures ([kind] + x) + rest != [] && (([kind] + x) + rest)[0] == kind && (([kind] + x) + rest)[1..] == x + rest
  {
  }

  lemma DecodeDeleteBack(op: Operation, rest: Bytes)
    requires Fits(op) && op.Delete?
    ensures DecodeOp(EncodeOp(op) + rest) == Read(op, rest)
  {
    var x := EncodeKv(op.key, op.seqNo, None);
    ConsTail(KIND_DELETE, x, rest);
    assert x == EncodeHead(op.key, op.seqNo);
    ReadHeadBack(op.key, op.seqNo, rest);
  }

  lemma DecodePutBack(op: Operation, rest: Bytes)
    requires Fits(op) && !op.Delete?
    ensures DecodeOp(EncodeOp(op) + rest) == Read(op, rest)
  {
    var kind := if op.Insert? then KIND_INSERT else KIND_UPDATE;
    var head, value := EncodeHead(op.key, op.seqNo), EncodeValue(op.value);
    ConsTail(kind, head + value, rest);
    SeqAssoc(head, value, rest);
    ReadHeadBack(op.key, op.seqNo, value + rest);
    ReadValueBack(op.value, rest);
  }

  lemma DecodeOpBack(op: Operation, rest: Bytes)
    requires Fits(op)
    ensures DecodeOp(EncodeOp(op) + rest) == Read(op, rest)
  {
    if op.Delete? { DecodeDeleteBack(op, rest); } else { DecodePutBack(op, rest); }
  }

  /** The step takes each of the items back out of its encoding, whatever follows. */
  ghost predicate Inverts<T(!new)>(step: Bytes -> Read<T>, encode: T -> Bytes, items: seq<T>) {
    forall x, more | x in items :: step(encode(x) + more) == Read(x, more)
  }

  lemma FirstBack<T(!new)>(step: Bytes -> Read<T>, encode: T -> Bytes, items: seq<T>, tail: Bytes)
    requires items != [] && Inverts(step, encode, items)
    ensures step(Each(encode, items) + tail) == Read(items[0], Each(encode, items[1..]) + tail)
    ensures Inverts(step, encode, items[1..])
  {
    SeqAssoc(encode(items[0]), Each(encode, items[1..]), tail);
    assert step(encode(items[0]) + (Each(encode, items[1..]) + tail)) == Read(items[0], Each(encode, items[1..]) + tail);
  }

  lemma {:induction false} RepeatUntil<T(!new)>(step: Bytes -> Read<T>, encode: T -> Bytes, items: seq<T>, count: nat, tail: Bytes)
    requires Inverts(step, encode, items) && |items| <= count && (count == |items| || step(tail).Short?)
    ensures Repeat(step, count, Each(encode, items) + tail) == items
  {
    if items == [] {
      assert Each(encode, items) + tail == tail;
    } else {
      FirstBack(step, encode, items, tail);
      RepeatUntil(step, encode, items[1..], count - 1, tail);
      assert items == [items[0]] + items[1..];
    }
  }

  lemma OpsBack(ops: seq<Operation>, rest: Bytes)
    requires EachFits(ops)
    ensures Repeat(DecodeOp, |ops|, EncodeAll(ops) + rest) == ops
  {
    forall x, more | x in ops ensures DecodeOp(EncodeOp(x) + more) == Read(x, more) {
      DecodeOpBack(x, more);
    }
    RepeatUntil(DecodeOp, EncodeOp, ops, |ops|, rest);
  }

  lemma {:induction false} FromLeBound(s: Bytes)
    ensures FromLe(s) < Pow256(|s|)
  {
    if s != [] { FromLeBound(s[1..]); }
  }

  lemma ReadIntBound(n: nat, d: Bytes)
    ensures ReadInt(n, d).Read? ==> ReadInt(n, d).value < Pow256(n)
  {
    if |d| >= n { FromLeBound(d[..n]); }
  }

  lemma ReadHeadFits(d: Bytes)
    requires ReadHead(d).Read?
    ensures |ReadHead(d).value.0.tags| < U16_SIZE && ReadHead(d).value.1 < U64_SIZE
  {
    PowSizes();
    ReadIntBound(2, d);
    var tags := ReadVec(ReadInt(2, d).value, ReadInt(2, d).rest);
    ReadIntBound(8, ReadInt(8, tags.rest).rest);
  }

  /** Whatever the bytes, a decoded operation fits the format. */
  lemma DecodedFits(d: Bytes)
    requires DecodeOp(d).Read?
    ensures Fits(DecodeOp(d).value)
  {
    ReadHeadFits(d[1..]);
    var rest := ReadHead(d[1..]).rest;
    PowSizes();
    ReadIntBound(4, rest);
  }

  lemma {:induction false} RepeatAll<T>(step: Bytes -> Read<T>, good: T -> bool, count: nat, d: Bytes)
    requires forall b | step(b).Read? :: good(step(b).value)
    ensures |Repeat(step, count, d)| <= count && forall x | x in Repeat(step, count, d) :: good(x)
  {
    if count > 0 && step(d).Read? { RepeatAll(step, good, count - 1, step(d).rest); }
  }

  lemma DecodedAllFit(count: nat, d: Bytes)
    ensures |Repeat(DecodeOp, count, d)| <= count && EachFits(Repeat(DecodeOp, count, d))
  {
    forall b | DecodeOp(b).Read? ensures Fits(DecodeOp(b).value) {
      DecodedFits(b);
    }
    RepeatAll(DecodeOp, Fits, count, d);
  }

  /** `decode_ops` undoes `encode_ops` exactly on the lists whose lengths and numbers fit their fields. */
  lemma DecodeEncode(ops: seq<Operation>)
    ensures Decode(EncodePayload(ops)) == ops <==> AllFit(ops)
  {
    var payload := EncodePayload(ops);
    PowSizes();
    var count := ReadInt(4, payload);
    ReadIntBound(4, payload);
    DecodedAllFit(count.value, count.rest);
    if AllFit(ops) {
      ReadIntBack(4, |ops|, EncodeAll(ops));
      OpsBack(ops, []);
      assert EncodeAll(ops) + [] == EncodeAll(ops);
    }
  }

  /** A length prefix that wraps cuts the tags short, and what is left of them is read as the timestamp and the number. */
  lemma WrappedHead(tags: Bytes, ts: I64, seqNo: nat, rest: Bytes)
    requires |tags| >= U16_SIZE
    ensures ReadHead(EncodeHead(Key(tags, ts), seqNo) + rest).Read?
    ensures ReadHead(EncodeHead(Key(tags, ts), seqNo) + rest).value.0.tags == tags[..|tags| % U16_SIZE]
  {
    var m := |tags| % U16_SIZE;
    var tail := Le(8, ToU64(ts)) + Le(8, seqNo);
    PowSizes();
    LeTruncates(2, |tags|);
    SeqAssoc(Le(2, |tags|), tags + tail, rest);
    SeqAssoc(tags, tail, rest);
    var d := tags + (tail + rest);
    assert (Le(2, |tags|) + d)[..2] == Le(2, |tags|) && (Le(2, |tags|) + d)[2..] == d;
    assert ReadInt(2, Le(2, |tags|) + d) == Read(m, d);
    assert d[..m] == tags[..m];
  }

  lemma WrappedDelete(op: Operation)
    requires op.Delete? && |op.key.tags| >= U16_SIZE
    ensures DecodeOp(EncodeOp(op)).Read?
    ensures DecodeOp(EncodeOp(op)).value.key.tags == op.key.tags[..|op.key.tags| % U16_SIZE]
  {
    var x := EncodeHead(op.key, op.seqNo);
    SeqAssoc(x, [], []);
    SeqAssoc([KIND_DELETE] + x, [], []);
    ConsTail(KIND_DELETE, x, []);
    WrappedHead(op.key.tags, op.key.ts, op.seqNo, []);
  }

  lemma EachOne<T>(encode: T -> Bytes, x: T)
    ensures Each(encode, [x]) == encode(x)
  {
    assert [x][1..] == [];
    assert Each(encode, []) == [] && encode(x) + [] == encode(x);
  }

  lemma RepeatOne<T>(step: Bytes -> Read<T>, d: Bytes)
    requires step(d).Read?
    ensures Repeat(step, 1, d) == [step(d).value]
  {
    assert Repeat(step, 0, step(d).rest) == [];
  }

  /** Tags that do not fit their length prefix do not survive: only the part the wrapped length covers comes back. */
  lemma LongTagsAreLost(tags: Bytes, ts: I64, seqNo: nat)
    requires |tags| >= U16_SIZE
    ensures var decoded := Decode(EncodePayload([Delete(Key(tags, ts), seqNo)]));
            |decoded| == 1 && decoded[0].key.tags == tags[..|tags| % U16_SIZE] != tags
  {
    var op := Delete(Key(tags, ts), seqNo);
    PowSizes();
    EachOne(EncodeOp, op);
    ReadIntBack(4, 1, EncodeOp(op));
    WrappedDelete(op);
    RepeatOne(DecodeOp, EncodeOp(op));
  }

  // ---------- The layout ----------

  function KindOf(op: Operation): Byte {
    match op
    case Insert(_, _, _) => KIND_INSERT
    case Update(_, _, _) => KIND_UPDATE
    case Delete(_, _) => KIND_DELETE
  }

  lemma OpParts(op: Operation, value: Bytes)
    requires value == if op.Delete? then [] else EncodeValue(op.value)
    ensures EncodeOp(op) == [KindOf(op)] + ((Le(2, |op.key.tags|) + (op.key.tags + (Le(8, ToU64(op.key.ts)) + Le(8, op.seqNo)))) + value)
  {
  }

  /** The head of an operation's encoding: kind, length of the tags, tags, time and number. */
  ghost predicate HeadOf(d: Bytes, kind: Byte, key: Key, seqNo: nat) {
    var n := |key.tags|;
    && |d| >= 19 + n && d[0] == kind
    && FromLe(d[1..3]) == n % 0x1_0000 && d[3..3 + n] == key.tags
    && FromLe(d[3 + n..11 + n]) == key.ts % 0x1_0000_0000_0000_0000
    && FromLe(d[11 + n..19 + n]) == seqNo % 0x1_0000_0000_0000_0000
  }

  lemma HeadIs(d: Bytes, kind: Byte, key: Key, seqNo: nat, len: Bytes, ts: Bytes, no: Bytes, value: Bytes)
    requires |len| == 2 && |ts| == 8 && |no| == 8 && FromLe(len) == |key.tags| % 0x1_0000
    requires FromLe(ts) == key.ts % 0x1_0000_0000_0000_0000 && FromLe(no) == seqNo % 0x1_0000_0000_0000_0000
    requires d == [kind] + ((len + (key.tags + (ts + no))) + value)
    ensures HeadOf(d, kind, key, seqNo) && |d| == 19 + |key.tags| + |value| && d == d[..19 + |key.tags|] + value
  {
    HeadLayout([kind], len, key.tags, ts, no, value, d);
  }

  lemma Integer(n: nat, v: nat, size: nat)
    requires Pow256(n) == size
    ensures |Le(n, v)| == n && FromLe(Le(n, v)) == v % size
  {
    LeTruncates(n, v);
  }

  /** One operation, byte by byte: its head and, unless it deletes, the length of its value and the value. */
  lemma OpLayout(op: Operation)
    ensures var d, n := EncodeOp(op), 19 + |op.key.tags|;
            && HeadOf(d, match op case Insert(_, _, _) => 0 case Update(_, _, _) => 1 case Delete(_, _) => 2, op.key, op.seqNo)
            && (op.Delete? ==> |d| == n)
            && (!op.Delete? ==>
                  |d| == n + 4 + |op.value| && FromLe(d[n..n + 4]) == |op.value| % 0x1_0000_0000 && d[n + 4..] == op.value)
  {
    var value := if op.Delete? then [] else EncodeValue(op.value);
    var len, ts, no := Le(2, |op.key.tags|), Le(8, ToU64(op.key.ts)), Le(8, op.seqNo);
    OpParts(op, value);
    PowSizes();
    Integer(2, |op.key.tags|, U16_SIZE);
    Integer(8, ToU64(op.key.ts), U64_SIZE);
    Integer(8, op.seqNo, U64_SIZE);
    HeadIs(EncodeOp(op), KindOf(op), op.key, op.seqNo, len, ts, no, value);
    if !op.Delete? { ValueIs(EncodeOp(op), EncodeOp(op)[..19 + |op.key.tags|], op.value); }
  }

  lemma ValueIs(d: Bytes, head: Bytes, value: Bytes)
    requires d == head + EncodeValue(value)
    ensures FromLe(d[|head|..|head| + 4]) == |value| % 0x1_0000_0000 && d[|head| + 4..] == value
  {
    PowSizes();
    LeTruncates(4, |value|);
    ValueLayout(head, Le(4, |value|), value, d);
  }

  lemma HeadLayout(kind: Bytes, len: Bytes, tags: Bytes, ts: Bytes, seqNo: Bytes, value: Bytes, d: Bytes)
    requires |kind| == 1 && |len| == 2 && |ts| == 8 && |seqNo| == 8
    requires d == kind + ((len + (tags + (ts + seqNo))) + value)
    ensures var n := |tags|;
            && |d| == 19 + n + |value| && d[1..3] == len && d[3..3 + n] == tags
            && d[3 + n..11 + n] == ts && d[11 + n..19 + n] == seqNo && d == d[..19 + n] + value
  {
  }

  lemma ValueLayout(head: Bytes, len: Bytes, value: Bytes, d: Bytes)
    requires |len| == 4 && d == head + (len + value)
    ensures d[|head|..|head| + 4] == len && d[|head| + 4..] == value
  {
  }

  /** A payload: how many operations, then one after the other. */
  lemma PayloadLayout(ops: seq<Operation>, i: nat)
    requires i < |ops|
    ensures EncodePayload(ops)[..4] == Le(4, |ops|)
    ensures EncodePayload(ops)[4..] == EncodeAll(ops[..i]) + (EncodeOp(ops[i]) + EncodeAll(ops[i + 1..])) && EncodeAll([]) == []
  {
    EachAt(EncodeOp, ops, i);
  }

  lemma {:induction false} EachAt<T>(encode: T -> Bytes, items: seq<T>, i: nat)
    requires i < |items|
    ensures Each(encode, items) == Each(encode, items[..i]) + (encode(items[i]) + Each(encode, items[i + 1..]))
  {
    if i == 0 {
      assert items[..0] == [];
      SeqAssoc(Each(encode, items), [], []);
    } else {
      EachAt(encode, items[1..], i - 1);
      assert items[..i][0] == items[0] && items[..i][1..] == items[1..][..i - 1] && items[1..][i..] == items[i + 1..];
      SeqAssoc(encode(items[0]), Each(encode, items[..i][1..]), encode(items[i]) + Each(encode, items[i + 1..]));
    }
  }

  // ---------- What decodes to what ----------

  lemma ReadHeadParts(d: Bytes, key: Key, seqNo: nat, rest: Bytes)
    requires ReadHead(d) == Read((key, seqNo), rest)
    ensures d == Le(2, |key.tags|) + (key.tags + (Le(8, ToU64(key.ts)) + (Le(8, seqNo) + rest)))
  {
    var a, b := d[2..], d[2..][|key.tags|..];
    PowSizes();
    IntParts(2, d);
    assert a == key.tags + b;
    IntParts(8, b);
    IntParts(8, b[8..]);
    TsParts(ReadInt(8, b).value);
  }

  /** Every head that can be read is the encoding of what it reads as. */
  lemma ReadHeadIff(d: Bytes, key: Key, seqNo: nat, rest: Bytes)
    ensures ReadHead(d) == Read((key, seqNo), rest) <==>
              |key.tags| < U16_SIZE && seqNo < U64_SIZE && d == EncodeHead(key, seqNo) + rest
  {
    if ReadHead(d) == Read((key, seqNo), rest) {
      ReadHeadFits(d);
      ReadHeadParts(d, key, seqNo, rest);
      FourParts(Le(2, |key.tags|), key.tags, Le(8, ToU64(key.ts)), Le(8, seqNo), rest);
    } else if |key.tags| < U16_SIZE && seqNo < U64_SIZE {
      ReadHeadBack(key, seqNo, rest);
    }
  }

  lemma FourParts(a: Bytes, b: Bytes, c: Bytes, d: Bytes, rest: Bytes)
    ensures a + (b + (c + (d + rest))) == (a + (b + (c + d))) + rest
  {
    SeqAssoc(c, d, rest);
    SeqAssoc(b, c + d, rest);
    SeqAssoc(a, b + (c + d), rest);
  }

  /** An integer that is read back is the one written. */
  lemma IntParts(n: nat, d: Bytes)
    requires |d| >= n
    ensures d == Le(n, ReadInt(n, d).value) + d[n..] && ReadInt(n, d).value < Pow256(n)
  {
    var v := ReadInt(n, d).value;
    FromLeBound(d[..n]);
    LeTruncates(n, v);
    ModSmall(v, Pow256(n));
    LeDetermined(Le(n, v), d[..n]);
    assert d == d[..n] + d[n..];
  }

  lemma TsParts(v: nat)
    requires v < U64_SIZE
    ensures ToU64(ToI64(v)) == v
  {
  }

  lemma ReadValueParts(d: Bytes, value: Bytes, rest: Bytes)
    requires ReadValue(d) == Read(value, rest)
    ensures d == EncodeValue(value) + rest
  {
    IntParts(4, d);
    assert d[4..] == value + rest;
    SeqAssoc(Le(4, |value|), value, rest);
  }

  lemma DecodedDelete(d: Bytes, op: Operation, rest: Bytes)
    requires d != [] && d[0] == KIND_DELETE && DecodeOp(d) == Read(op, rest)
    ensures d == EncodeOp(op) + rest
  {
    var head := EncodeHead(op.key, op.seqNo);
    ReadHeadIff(d[1..], op.key, op.seqNo, rest);
    assert d == [KIND_DELETE] + d[1..];
    SeqAssoc(head, [], []);
    SeqAssoc([KIND_DELETE], head, rest);
  }

  lemma PutFields(d: Bytes, op: Operation, rest: Bytes) returns (more: Bytes)
    requires d != [] && d[0] < KIND_DELETE && DecodeOp(d) == Read(op, rest)
    ensures ReadHead(d[1..]) == Read((op.key, op.seqNo), more) && !op.Delete? && ReadValue(more) == Read(op.value, rest)
    ensures d[0] == KindOf(op)
  {
    more := ReadHead(d[1..]).rest;
  }

  lemma DecodedPut(d: Bytes, op: Operation, rest: Bytes)
    requires d != [] && d[0] < KIND_DELETE && DecodeOp(d) == Read(op, rest)
    ensures d == EncodeOp(op) + rest
  {
    var more := PutFields(d, op, rest);
    ReadHeadIff(d[1..], op.key, op.seqNo, more);
    ReadValueParts(more, op.value, rest);
    PutEncoded(d, op, rest);
  }

  lemma PutEncoded(d: Bytes, op: Operation, rest: Bytes)
    requires d != [] && !op.Delete? && d[0] == KindOf(op)
    requires d[1..] == EncodeHead(op.key, op.seqNo) + (EncodeValue(op.value) + rest)
    ensures d == EncodeOp(op) + rest
  {
    PutParts(d, KindOf(op), EncodeHead(op.key, op.seqNo), EncodeValue(op.value), rest);
  }

  lemma PutParts(d: Bytes, kind: Byte, head: Bytes, value: Bytes, rest: Bytes)
    requires d != [] && d[0] == kind && d[1..] == head + (value + rest)
    ensures d == ([kind] + (head + value)) + rest
  {
    SeqAssoc(head, value, rest);
    SeqAssoc([kind], head + value, rest);
    assert d == [kind] + d[1..];
  }

  /** For the kinds that are written, decoding is exactly the inverse of encoding what fits. */
  lemma DecodeOpIff(d: Bytes, op: Operation, rest: Bytes)
    requires d != [] && d[0] <= KIND_DELETE
    ensures DecodeOp(d) == Read(op, rest) <==> Fits(op) && d == EncodeOp(op) + rest
  {
    if DecodeOp(d) == Read(op, rest) {
      DecodedFits(d);
      if d[0] == KIND_DELETE { DecodedDelete(d, op, rest); } else { DecodedPut(d, op, rest); }
    } else if Fits(op) {
      DecodeOpBack(op, rest);
    }
  }

  /** A kind that is never written reads as an insert. */
  lemma UnknownKind(d: Bytes)
    requires d != [] && d[0] > KIND_DELETE
    ensures DecodeOp(d) == DecodeOp([KIND_INSERT] + d[1..])
  {
    assert ([KIND_INSERT] + d[1..])[1..] == d[1..];
  }

  /** A payload that announces more operations than it has whole ones decodes to the whole ones. */
  lemma DecodesWhole(count: nat, ops: seq<Operation>, tail: Bytes)
    requires EachFits(ops) && |ops| <= count < U32_SIZE && (count == |ops| || DecodeOp(tail).Short?)
    ensures Decode(Le(4, count) + (EncodeAll(ops) + tail)) == ops
  {
    PowSizes();
    ReadIntBack(4, count, EncodeAll(ops) + tail);
    forall x, more | x in ops ensures DecodeOp(EncodeOp(x) + more) == Read(x, more) { DecodeOpBack(x, more); }
    RepeatUntil(DecodeOp, EncodeOp, ops, count, tail);
  }

  // ---------- Truncated payloads ----------

  /** What a read yields does not depend on bytes past the ones it consumed. */
  lemma ReadIntLocal(n: nat, d: Bytes, more: Bytes)
    requires ReadInt(n, d).Read?
    ensures ReadInt(n, d + more) == Read(ReadInt(n, d).value, ReadInt(n, d).rest + more)
  {
    assert (d + more)[..n] == d[..n];
    assert (d + more)[n..] == d[n..] + more;
  }

  lemma ReadVecLocal(n: nat, d: Bytes, more: Bytes)
    requires ReadVec(n, d).Read?
    ensures ReadVec(n, d + more) == Read(ReadVec(n, d).value, ReadVec(n, d).rest + more)
  {
    assert (d + more)[..n] == d[..n];
    assert (d + more)[n..] == d[n..] + more;
  }

  lemma ReadHeadLocal(d: Bytes, more: Bytes)
    requires ReadHead(d).Read?
    ensures ReadHead(d + more) == Read(ReadHead(d).value, ReadHead(d).rest + more)
  {
    ReadIntLocal(2, d, more);
    var len := ReadInt(2, d);
    ReadVecLocal(len.value, len.rest, more);
    var tags := ReadVec(len.value, len.rest);
    ReadIntLocal(8, tags.rest, more);
    ReadIntLocal(8, ReadInt(8, tags.rest).rest, more);
  }

  lemma ReadValueLocal(d: Bytes, more: Bytes)
    requires ReadValue(d).Read?
    ensures ReadValue(d + more) == Read(ReadValue(d).value, ReadValue(d).rest + more)
  {
    ReadIntLocal(4, d, more);
    var len := ReadInt(4, d);
    ReadVecLocal(len.value, len.rest, more);
  }

  lemma DecodeOpLocal(d: Bytes, more: Bytes)
    requires DecodeOp(d).Read?
    ensures DecodeOp(d + more) == Read(DecodeOp(d).value, DecodeOp(d).rest + more)
  {
    TailOfSum(d, more);
    ReadHeadLocal(d[1..], more);
    if d[0] != KIND_DELETE { ReadValueLocal(ReadHead(d[1..]).rest, more); }
  }

  lemma TailOfSum(d: Bytes, more: Bytes)
    requires d != []
    ensures (d + more)[0] == d[0] && (d + more)[1..] == d[1..] + more
  {
  }

  /** What a step yields does not depend on the bytes it leaves. */
  ghost predicate Local<T(!new)>(step: Bytes -> Read<T>) {
    forall d, more | step(d).Read? :: step(d + more) == Read(step(d).value, step(d).rest + more)
  }

  lemma {:induction false} RepeatPrefix<T(!new)>(step: Bytes -> Read<T>, count: nat, d: Bytes, more: Bytes)
    requires Local(step)
    ensures Repeat(step, count, d) <= Repeat(step, count, d + more)
  {
    if count > 0 && step(d).Read? { RepeatPrefix(step, count - 1, step(d).rest, more); }
  }

  lemma DecodeOpIsLocal()
    ensures Local(DecodeOp)
  {
    forall d, more | DecodeOp(d).Read?
      ensures DecodeOp(d + more) == Read(DecodeOp(d).value, DecodeOp(d).rest + more)
    {
      DecodeOpLocal(d, more);
    }
  }

  /** Decoding a truncated payload yields a prefix of what the whole payload decodes to. */
  lemma TruncatedPayload(payload: Bytes, n: nat)
    requires n <= |payload|
    ensures Decode(payload[..n]) <= Decode(payload)
  {
    var cut, more := payload[..n], payload[n..];
    assert cut + more == payload;
    if ReadInt(4, cut).Read? {
      ReadIntLocal(4, cut, more);
      DecodeOpIsLocal();
      RepeatPrefix(DecodeOp, ReadInt(4, cut).value, ReadInt(4, cut).rest, more);
    }
  }

  // ---------- Frames ----------

  type U32 = x: nat | x < U32_SIZE

  /** The checksum; nothing is assumed about it. */
  type Checksum = Bytes -> U32

  /** What `append_batch` writes: length and checksum as truncating u32 fields, then the payload. */
  function Frame(crc: Checksum, payload: Bytes): Bytes {
    Le(4, |payload|) + (Le(4, crc(payload)) + payload)
  }

  function BatchFrame(crc: Checksum, batch: seq<Operation>): Bytes {
    Frame(crc, EncodePayload(batch))
  }

  /** One turn of the loop in `recover`: the next whole, undamaged frame's payload. */
  function ReadFrame(crc: Checksum, file: Bytes): (r: Read<Bytes>)
    ensures r.Read? ==> |r.rest| < |file|
  {
    var len := ReadInt(4, file);
    if len.Short? || len.value == 0 || len.value > MAX_FRAME_LEN then Short else
    var sum := ReadInt(4, len.rest);
    if sum.Short? then Short else
    var body := ReadVec(len.value, sum.rest);
    if body.Short? || crc(body.value) != sum.value then Short else body
  }

  function Recovered(crc: Checksum, file: Bytes): seq<Operation>
    decreases |file|
  {
    var frame := ReadFrame(crc, file);
    if frame.Short? then [] else Decode(frame.value) + Recovered(crc, frame.rest)
  }

  function Frames(crc: Checksum, batches: seq<seq<Operation>>): Bytes {
    if batches == [] then [] else BatchFrame(crc, batches[0]) + Frames(crc, batches[1..])
  }

  /** A batch that fits the format and whose payload is within the frame limit. */
  predicate Recoverable(batch: seq<Operation>) {
    AllFit(batch) && |EncodePayload(batch)| <= MAX_FRAME_LEN
  }

  predicate AllRecoverable(batches: seq<seq<Operation>>) {
    forall i | 0 <= i < |batches| :: Recoverable(batches[i])
  }

  lemma FrameBack(crc: Checksum, payload: Bytes, rest: Bytes)
    requires 0 < |payload| <= MAX_FRAME_LEN
    ensures ReadFrame(crc, Frame(crc, payload) + rest) == Read(payload, rest)
  {
    PowSizes();
    var sum := Le(4, crc(payload));
    SeqAssoc(Le(4, |payload|), sum + payload, rest);
    SeqAssoc(sum, payload, rest);
    ReadIntBack(4, |payload|, sum + (payload + rest));
    ReadIntBack(4, crc(payload), payload + rest);
    ReadVecBack(payload, rest);
  }

  /** A frame: the payload's length, its checksum, the payload. */
  lemma FrameLayout(crc: Checksum, payload: Bytes)
    ensures var d := Frame(crc, payload);
            |d| == 8 + |payload| && FromLe(d[..4]) == |payload| % U32_SIZE && FromLe(d[4..8]) == crc(payload) && d[8..] == payload
  {
    var d := Frame(crc, payload);
    PowSizes();
    LeTruncates(4, |payload|);
    LeTruncates(4, crc(payload));
    ModSmall(crc(payload), U32_SIZE);
    assert d[..4] == Le(4, |payload|) && d[4..8] == Le(4, crc(payload)) && d[8..] == payload;
  }

  /** A frame is read exactly if the file begins with the frame of a payload that is not empty and within the limit. */
  lemma ReadFrameIff(crc: Checksum, file: Bytes, payload: Bytes, rest: Bytes)
    ensures ReadFrame(crc, file) == Read(payload, rest) <==>
              0 < |payload| <= MAX_FRAME_LEN && file == Frame(crc, payload) + rest
  {
    if 0 < |payload| <= MAX_FRAME_LEN && file == Frame(crc, payload) + rest { FrameBack(crc, payload, rest); }
    if ReadFrame(crc, file) == Read(payload, rest) {
      IntParts(4, file);
      IntParts(4, file[4..]);
      assert file[4..][4..] == payload + rest;
      SeqAssoc(Le(4, crc(payload)), payload, rest);
      SeqAssoc(Le(4, |payload|), Le(4, crc(payload)) + payload, rest);
    }
  }

  /** The file begins with a whole, undamaged frame. */
  ghost predicate StartsWithFrame(crc: Checksum, file: Bytes) {
    exists payload, rest :: 0 < |payload| <= MAX_FRAME_LEN && file == Frame(crc, payload) + rest
  }

  lemma ReadsFrame(crc: Checksum, file: Bytes)
    ensures ReadFrame(crc, file).Read? <==> StartsWithFrame(crc, file)
  {
    if ReadFrame(crc, file).Read? { ReadFrameIff(crc, file, ReadFrame(crc, file).value, ReadFrame(crc, file).rest); }
    if payload, rest :| 0 < |payload| <= MAX_FRAME_LEN && file == Frame(crc, payload) + rest {
      ReadFrameIff(crc, file, payload, rest);
    }
  }

  /** Whatever follows, a payload whose checksum is not the one written beside it is not taken for a batch. */
  lemma DamagedFrame(crc: Checksum, body: Bytes, sum: U32, more: Bytes)
    requires 0 < |body| <= MAX_FRAME_LEN && sum != crc(body)
    ensures Recovered(crc, (Le(4, |body|) + (Le(4, sum) + body)) + more) == []
  {
    PowSizes();
    SeqAssoc(Le(4, |body|), Le(4, sum) + body, more);
    SeqAssoc(Le(4, sum), body, more);
    ReadIntBack(4, |body|, Le(4, sum) + (body + more));
    ReadIntBack(4, sum, body + more);
    ReadVecBack(body, more);
  }

  lemma RecoveredOne(crc: Checksum, payload: Bytes, rest: Bytes)
    requires 0 < |payload| <= MAX_FRAME_LEN
    ensures Recovered(crc, Frame(crc, payload) + rest) == Decode(payload) + Recovered(crc, rest)
  {
    FrameBack(crc, payload, rest);
  }

  /** Recovery reads back every recoverable batch and then goes on with whatever follows. */
  lemma {:induction false} RecoverLog(crc: Checksum, batches: seq<seq<Operation>>, tail: Bytes)
    requires AllRecoverable(batches)
    ensures Recovered(crc, Frames(crc, batches) + tail) == Flatten(batches) + Recovered(crc, tail)
  {
    if batches == [] {
      SeqAssoc(tail, [], []);
      SeqAssoc(Recovered(crc, tail), [], []);
    } else {
      var b, rest := batches[0], Frames(crc, batches[1..]);
      SeqAssoc(BatchFrame(crc, b), rest, tail);
      RecoveredOne(crc, EncodePayload(b), rest + tail);
      DecodeEncode(b);
      RecoverLog(crc, batches[1..], tail);
      SeqAssoc(b, Flatten(batches[1..]), Recovered(crc, tail));
    }
  }

  // ---------- Truncated logs ----------

  lemma FrameLocal(crc: Checksum, d: Bytes, more: Bytes)
    requires ReadFrame(crc, d).Read?
    ensures ReadFrame(crc, d + more) == Read(ReadFrame(crc, d).value, ReadFrame(crc, d).rest + more)
  {
    ReadIntLocal(4, d, more);
    var len := ReadInt(4, d);
    ReadIntLocal(4, len.rest, more);
    ReadVecLocal(len.value, ReadInt(4, len.rest).rest, more);
  }

  /** No proper prefix of a frame passes for a frame. */
  lemma CutFrame(crc: Checksum, payload: Bytes, n: nat)
    requires 0 < |payload| <= MAX_FRAME_LEN && n < |Frame(crc, payload)|
    ensures ReadFrame(crc, Frame(crc, payload)[..n]).Short?
  {
    var whole := Frame(crc, payload);
    var cut, more := whole[..n], whole[n..];
    if ReadFrame(crc, cut).Read? {
      FrameLocal(crc, cut, more);
      assert cut + more == whole + [];
      FrameBack(crc, payload, []);
    }
  }

  /** How many frames lie wholly before the cut. */
  function Whole(crc: Checksum, batches: seq<seq<Operation>>, cut: nat): (k: nat)
    ensures k <= |batches|
  {
    if batches == [] || cut < |BatchFrame(crc, batches[0])| then 0
    else 1 + Whole(crc, batches[1..], cut - |BatchFrame(crc, batches[0])|)
  }

  lemma FramesTake(crc: Checksum, batches: seq<seq<Operation>>, k: nat)
    requires 0 < k <= |batches|
    ensures Frames(crc, batches[..k]) == BatchFrame(crc, batches[0]) + Frames(crc, batches[1..][..k - 1])
    ensures Flatten(batches[..k]) == batches[0] + Flatten(batches[1..][..k - 1])
  {
    assert batches[..k][0] == batches[0] && batches[..k][1..] == batches[1..][..k - 1];
  }

  lemma {:induction false} WholeMeaning(crc: Checksum, batches: seq<seq<Operation>>, cut: nat)
    ensures var k := Whole(crc, batches, cut);
            && |Frames(crc, batches[..k])| <= cut
            && (k < |batches| ==> cut < |Frames(crc, batches[..k + 1])|)
  {
    if batches != [] && cut >= |BatchFrame(crc, batches[0])| {
      var later := cut - |BatchFrame(crc, batches[0])|;
      var k := Whole(crc, batches[1..], later);
      WholeMeaning(crc, batches[1..], later);
      FramesTake(crc, batches, k + 1);
      if k + 1 < |batches| { FramesTake(crc, batches, k + 2); }
    } else if batches != [] {
      FramesTake(crc, batches, 1);
      assert batches[1..][..0] == [];
    }
  }

  lemma FrameNotEmpty(crc: Checksum, batch: seq<Operation>)
    ensures |BatchFrame(crc, batch)| >= 8
  {
  }

  lemma {:induction false} FramesConcat(crc: Checksum, a: seq<seq<Operation>>, b: seq<seq<Operation>>)
    ensures Frames(crc, a + b) == Frames(crc, a) + Frames(crc, b)
  {
    if a == [] {
      assert a + b == b;
      SeqAssoc(Frames(crc, b), [], []);
    } else {
      assert (a + b)[1..] == a[1..] + b;
      FramesConcat(crc, a[1..], b);
      SeqAssoc(BatchFrame(crc, a[0]), Frames(crc, a[1..]), Frames(crc, b));
    }
  }

  lemma FramesOne(crc: Checksum, b: seq<Operation>)
    ensures Frames(crc, [b]) == BatchFrame(crc, b)
  {
    assert [b][1..] == [] && Frames(crc, []) == [];
    SeqAssoc(BatchFrame(crc, b), [], []);
  }

  lemma FramesAppend(crc: Checksum, batches: seq<seq<Operation>>, b: seq<Operation>)
    ensures Frames(crc, batches + [b]) == Frames(crc, batches) + BatchFrame(crc, b)
  {
    FramesConcat(crc, batches, [b]);
    FramesOne(crc, b);
  }

  /** The frames up to the `j`-th and those from it on. */
  lemma FramesSplit(crc: Checksum, batches: seq<seq<Operation>>, j: nat)
    requires j <= |batches|
    ensures Frames(crc, batches) == Frames(crc, batches[..j]) + Frames(crc, batches[j..])
    ensures j < |batches| ==> |Frames(crc, batches[..j + 1])| == |Frames(crc, batches[..j])| + |BatchFrame(crc, batches[j])|
  {
    assert batches == batches[..j] + batches[j..];
    FramesConcat(crc, batches[..j], batches[j..]);
    if j < |batches| {
      assert batches[..j + 1] == batches[..j] + [batches[j]];
      FramesAppend(crc, batches[..j], batches[j]);
    }
  }

  lemma TakeBehind(a: Bytes, b: Bytes, n: nat)
    requires n <= |b|
    ensures (a + b)[..|a| + n] == a + b[..n]
  {
  }

  lemma TakeWithin(a: Bytes, b: Bytes, n: nat)
    requires n <= |a|
    ensures (a + b)[..n] == a[..n]
  {
  }

  /** A part of the first frame recovers to nothing. */
  lemma CutInside(crc: Checksum, batches: seq<seq<Operation>>, cut: nat)
    requires AllRecoverable(batches) && cut <= |Frames(crc, batches)|
    requires batches != [] ==> cut < |BatchFrame(crc, batches[0])|
    ensures Recovered(crc, Frames(crc, batches)[..cut]) == []
  {
    if batches != [] {
      TakeWithin(BatchFrame(crc, batches[0]), Frames(crc, batches[1..]), cut);
      CutFrame(crc, EncodePayload(batches[0]), cut);
    }
  }

  /** So whole frames and a part of the next one recover to the whole ones. */
  lemma RecoverCut(crc: Checksum, file: Bytes, done: seq<seq<Operation>>, rest: seq<seq<Operation>>, later: nat, cut: nat)
    requires file == Frames(crc, done) + Frames(crc, rest) && cut == |Frames(crc, done)| + later
    requires AllRecoverable(done) && AllRecoverable(rest) && later <= |Frames(crc, rest)|
    requires rest != [] ==> later < |BatchFrame(crc, rest[0])|
    ensures Recovered(crc, file[..cut]) == Flatten(done)
  {
    TakeBehind(Frames(crc, done), Frames(crc, rest), later);
    CutInside(crc, rest, later);
    RecoverDone(crc, file[..cut], done, Frames(crc, rest)[..later]);
  }

  lemma RecoverDone(crc: Checksum, left: Bytes, done: seq<seq<Operation>>, part: Bytes)
    requires left == Frames(crc, done) + part && AllRecoverable(done) && Recovered(crc, part) == []
    ensures Recovered(crc, left) == Flatten(done)
  {
    RecoverLog(crc, done, part);
    SeqAssoc(Flatten(done), [], []);
  }

  /** The number of whole frames, and how far the cut reaches into the next one. */
  lemma WholeLater(crc: Checksum, batches: seq<seq<Operation>>, cut: nat) returns (later: nat)
    requires cut <= |Frames(crc, batches)|
    ensures var k := Whole(crc, batches, cut);
            && Frames(crc, batches) == Frames(crc, batches[..k]) + Frames(crc, batches[k..])
            && cut == |Frames(crc, batches[..k])| + later && later <= |Frames(crc, batches[k..])|
            && (k < |batches| ==> later < |BatchFrame(crc, batches[k])|)
  {
    var k := Whole(crc, batches, cut);
    WholeMeaning(crc, batches, cut);
    FramesSplit(crc, batches, k);
    later := cut - |Frames(crc, batches[..k])|;
  }

  /**
   Wherever the file is cut, recovery yields the operations of exactly the frames that lie wholly
   before the cut: a batch comes back whole or not at all.
   */
  lemma RecoverTruncated(crc: Checksum, batches: seq<seq<Operation>>, cut: nat)
    requires AllRecoverable(batches) && cut <= |Frames(crc, batches)|
    ensures Recovered(crc, Frames(crc, batches)[..cut]) == Flatten(batches[..Whole(crc, batches, cut)])
  {
    var k := Whole(crc, batches, cut);
    var later := WholeLater(crc, batches, cut);
    RecoverCut(crc, Frames(crc, batches), batches[..k], batches[k..], later, cut);
  }

  /** A damaged or torn frame ends recovery; the batches before it are unaffected. */
  lemma RecoverBeforeDamage(crc: Checksum, batches: seq<seq<Operation>>, tail: Bytes)
    requires AllRecoverable(batches) && !StartsWithFrame(crc, tail)
    ensures Recovered(crc, Frames(crc, batches) + tail) == Flatten(batches)
  {
    ReadsFrame(crc, tail);
    RecoverLog(crc, batches, tail);
    assert Flatten(batches) + [] == Flatten(batches);
  }

  /** A batch over the frame limit is appended without complaint, and ends recovery. */
  lemma OversizedFrame(crc: Checksum, batch: seq<Operation>, tail: Bytes)
    requires MAX_FRAME_LEN < |EncodePayload(batch)| < U32_SIZE
    ensures ReadFrame(crc, BatchFrame(crc, batch) + tail).Short?
  {
    PowSizes();
    var payload := EncodePayload(batch);
    SeqAssoc(Le(4, |payload|), Le(4, crc(payload)) + payload, tail);
    ReadIntBack(4, |payload|, (Le(4, crc(payload)) + payload) + tail);
  }

  /** For payloads under 4 GiB: a batch survives exactly if it fits and respects the frame limit. */
  lemma SurvivesIff(crc: Checksum, batch: seq<Operation>)
    requires |EncodePayload(batch)| < U32_SIZE
    ensures Recovered(crc, BatchFrame(crc, batch)) == batch <==> Recoverable(batch)
  {
    var payload := EncodePayload(batch);
    assert BatchFrame(crc, batch) + [] == BatchFrame(crc, batch);
    if |payload| > MAX_FRAME_LEN {
      OversizedFrame(crc, batch, []);
      assert batch != [];
    } else {
      RecoveredOne(crc, payload, []);
      DecodeEncode(batch);
      assert Decode(payload) + Recovered(crc, []) == Decode(payload);
    }
  }

  // ---------- What follows an old log ----------

  /** The file ends with a whole frame: nothing hides what is appended to it. */
  predicate Intact(crc: Checksum, file: Bytes)
    decreases |file|
  {
    file == [] || (ReadFrame(crc, file).Read? && Intact(crc, ReadFrame(crc, file).rest))
  }

  lemma OneFrameMore(crc: Checksum, file: Bytes, more: Bytes)
    requires ReadFrame(crc, file).Read?
    ensures Recovered(crc, file + more) == Decode(ReadFrame(crc, file).value) + Recovered(crc, ReadFrame(crc, file).rest + more)
  {
    FrameLocal(crc, file, more);
  }

  /** What was recovered once is recovered again, whatever has been appended since. */
  lemma {:induction false} RecoveredGrows(crc: Checksum, file: Bytes, more: Bytes) returns (grown: seq<Operation>)
    ensures Recovered(crc, file + more) == Recovered(crc, file) + grown
    decreases |file|
  {
    var frame := ReadFrame(crc, file);
    if frame.Read? {
      OneFrameMore(crc, file, more);
      grown := RecoveredGrows(crc, frame.rest, more);
      SeqAssoc(Decode(frame.value), Recovered(crc, frame.rest), grown);
    } else {
      grown := Recovered(crc, file + more);
      SeqAssoc(grown, [], []);
    }
  }

  lemma BaseSurvives(crc: Checksum, base: Bytes, more: Bytes, later: nat, file: Bytes, cut: nat)
    returns (grown: seq<Operation>)
    requires file == base + more && later <= |more| && cut == |base| + later
    ensures Recovered(crc, file[..cut]) == Recovered(crc, base) + grown
  {
    TakeBehind(base, more, later);
    grown := RecoveredGrows(crc, base, more[..later]);
  }

  /** Recovery of an intact file goes on with what follows. */
  lemma {:induction false} IntactThen(crc: Checksum, file: Bytes, more: Bytes)
    requires Intact(crc, file)
    ensures Recovered(crc, file + more) == Recovered(crc, file) + Recovered(crc, more)
    decreases |file|
  {
    if file == [] {
      assert [] + more == more;
      assert [] + Recovered(crc, more) == Recovered(crc, more);
    } else {
      var frame := ReadFrame(crc, file);
      OneFrameMore(crc, file, more);
      IntactThen(crc, frame.rest, more);
      SeqAssoc(Decode(frame.value), Recovered(crc, frame.rest), Recovered(crc, more));
    }
  }

  /** Cut behind an intact old part, the file yields that part and the whole batches before the cut. */
  lemma RecoverTail(crc: Checksum, base: Bytes, batches: seq<seq<Operation>>, later: nat, file: Bytes, cut: nat)
    requires file == base + Frames(crc, batches) && later <= |Frames(crc, batches)| && cut == |base| + later
    requires Intact(crc, base) && AllRecoverable(batches)
    ensures Recovered(crc, file[..cut]) == Recovered(crc, base) + Flatten(batches[..Whole(crc, batches, later)])
  {
    var part := Frames(crc, batches)[..later];
    TakeBehind(base, Frames(crc, batches), later);
    RecoverTruncated(crc, batches, later);
    IntactCut(crc, base, part, file[..cut], Flatten(batches[..Whole(crc, batches, later)]));
  }

  lemma IntactCut(crc: Checksum, base: Bytes, part: Bytes, left: Bytes, ops: seq<Operation>)
    requires left == base + part && Intact(crc, base) && Recovered(crc, part) == ops
    ensures Recovered(crc, left) == Recovered(crc, base) + ops
  {
    IntactThen(crc, base, part);
  }

  lemma FromLeCons(b: Byte, s: Bytes)
    ensures FromLe([b] + s) == b + 256 * FromLe(s)
  {
    assert ([b] + s)[1..] == s;
  }

  lemma LeCons(n: nat, v: nat, b: Byte, rest: nat)
    requires n > 0 && v % 256 == b && v / 256 == rest
    ensures Le(n, v) == [b] + Le(n - 1, rest)
  {
  }

  lemma LeSmall(n: nat)
    requires n < 256
    ensures Le(4, n) == [n] + ([0] + ([0] + ([0] + [])))
  {
    var zero: nat := 0;
    LeCons(4, n, n, zero);
    LeCons(3, zero, 0, zero);
    LeCons(2, zero, 0, zero);
    LeCons(1, zero, 0, zero);
  }

  lemma ShiftedLength(n: nat, rest: Bytes)
    requires 0 < n < 256
    ensures ReadInt(4, [0] + (Le(4, n) + rest)) == Read(256 * n, [0] + rest)
  {
    var d := [0] + (Le(4, n) + rest);
    LeSmall(n);
    assert d[..4] == [0] + ([n] + ([0] + ([0] + []))) && d[4..] == [0] + rest;
    FromLeCons(0, []);
    FromLeCons(0, [0] + []);
    FromLeCons(n, [0] + ([0] + []));
    FromLeCons(0, [n] + ([0] + ([0] + [])));
  }

  /**
   One byte left of a torn frame is enough to hide a batch that would otherwise survive, whatever the checksum; see
   `AppendsSurviveIff` for exactly which logs hide something.
   */
  lemma TornTailHides(crc: Checksum, batch: seq<Operation>)
    requires 0 < |EncodePayload(batch)| < 256
    ensures Recovered(crc, [0]) == [] && Recovered(crc, [0] + BatchFrame(crc, batch)) == []
  {
    var n := |EncodePayload(batch)|;
    var rest := Le(4, crc(EncodePayload(batch))) + EncodePayload(batch);
    ShiftedLength(n, rest);
    assert |[0] + rest| == n + 5;
  }

  // ---------- What a torn tail hides ----------

  lemma OneFrameParts(crc: Checksum, file: Bytes)
    requires ReadFrame(crc, file).Read?
    ensures var r := ReadFrame(crc, file);
            |file| == 8 + |r.value| + |r.rest| && |r.value| == FromLe(file[..4]) && file[8..][..|r.value|] == r.value
  {
    assert file[4..][4..] == file[8..];
  }

  lemma ReadHeadSize(d: Bytes)
    ensures ReadHead(d).Read? ==> |d| == |EncodeHead(ReadHead(d).value.0, ReadHead(d).value.1)| + |ReadHead(d).rest|
    ensures |d| >= U16_SIZE + 18 ==> ReadHead(d).Read?
  {
    PowSizes();
    ReadIntBound(2, d);
  }

  /** Decoding consumes as many bytes as encoding what it yields takes. */
  lemma DecodeOpSize(d: Bytes)
    requires DecodeOp(d).Read?
    ensures |d| == |EncodeOp(DecodeOp(d).value)| + |DecodeOp(d).rest|
  {
    ReadHeadSize(d[1..]);
  }

  lemma OnePayload(op: Operation)
    ensures |EncodePayload([op])| == 4 + |EncodeOp(op)|
  {
    EachOne(EncodeOp, op);
  }

  lemma DecodedSize(payload: Bytes, op: Operation)
    requires Decode(payload) == [op]
    ensures DecodeOp(payload[4..]).Read? && DecodeOp(payload[4..]).value == op && |payload| >= |EncodePayload([op])|
  {
    DecodeOpSize(payload[4..]);
    OnePayload(op);
  }

  lemma OnlyOne<T>(a: seq<T>, b: seq<T>, x: T)
    requires a + b == [x]
    ensures (a == [x] && b == []) || (a == [] && b == [x])
  {
    if a == [] { assert a + b == b; } else { assert (a + b)[0] == a[0] && |b| == 0; }
  }

  /** A file that recovers to a single operation is at least as long as that operation's frame. */
  lemma {:induction false} RecoveredSize(crc: Checksum, file: Bytes, op: Operation)
    requires Recovered(crc, file) == [op]
    ensures |file| >= |BatchFrame(crc, [op])|
    decreases |file|
  {
    var frame := ReadFrame(crc, file);
    OneFrameParts(crc, file);
    OnlyOne(Decode(frame.value), Recovered(crc, frame.rest), op);
    if Decode(frame.value) == [op] {
      DecodedSize(frame.value, op);
    } else {
      RecoveredSize(crc, frame.rest, op);
    }
  }

  /**
   If the tail reaches into what is appended, and what it announces is too short for the batch, then the batch neither
   comes out of the tail's frame nor out of what that frame leaves.
   */
  lemma Swallowed(crc: Checksum, tail: Bytes, op: Operation)
    requires var frame := ReadFrame(crc, tail + BatchFrame(crc, [op]));
             frame.Read? ==> |tail| < 8 + |frame.value| && Decode(frame.value) != [op]
    ensures Recovered(crc, tail + BatchFrame(crc, [op])) != [op]
  {
    var file := tail + BatchFrame(crc, [op]);
    var frame := ReadFrame(crc, file);
    if frame.Read? && Recovered(crc, file) == [op] {
      OneFrameParts(crc, file);
      OnlyOne(Decode(frame.value), Recovered(crc, frame.rest), op);
      RecoveredSize(crc, frame.rest, op);
    }
  }

  /** A tail with a length field keeps it; appended bytes let a frame be read only if the tail was too short for it. */
  lemma TailReads(crc: Checksum, tail: Bytes, more: Bytes)
    requires |tail| >= 4 && ReadFrame(crc, tail).Short? && ReadFrame(crc, tail + more).Read?
    ensures |ReadFrame(crc, tail + more).value| == FromLe(tail[..4]) && |tail| < 8 + FromLe(tail[..4])
  {
    var n := FromLe(tail[..4]);
    ReadIntLocal(4, tail, more);
    OneFrameParts(crc, tail + more);
    TakeWithin(tail, more, 4);
    if |tail| >= 8 + n {
      ReadIntLocal(4, tail[4..], more);
      ReadVecLocal(n, tail[4..][4..], more);
    }
  }

  // A batch of a single row whose frame is as large as recovery accepts.

  const BIG_VALUE: Bytes := seq(MAX_FRAME_LEN - 27, _ => 0)
  const BIG: Operation := Insert(Key([], 0), 0, BIG_VALUE)

  lemma BigPayload()
    ensures |EncodePayload([BIG])| == MAX_FRAME_LEN && Recoverable([BIG])
  {
    OnePayload(BIG);
  }

  /** A tail that announces anything but the largest length hides the big batch. */
  lemma BigIsHidden(crc: Checksum, tail: Bytes)
    requires |tail| >= 4 && ReadFrame(crc, tail).Short? && FromLe(tail[..4]) != MAX_FRAME_LEN
    ensures Recovered(crc, tail + BatchFrame(crc, [BIG])) != [BIG]
  {
    var frame := ReadFrame(crc, tail + BatchFrame(crc, [BIG]));
    if frame.Read? {
      TailReads(crc, tail, BatchFrame(crc, [BIG]));
      BigPayload();
      if Decode(frame.value) == [BIG] { DecodedSize(frame.value, BIG); }
    }
    Swallowed(crc, tail, BIG);
  }

  lemma ShortLength(s: Bytes)
    requires |s| == 4 && s[3] == 0
    ensures FromLe(s) < 0x100_0000
  {
    assert FromLe(s[1..]) == s[1] + 256 * FromLe(s[1..][1..]);
    assert FromLe(s[1..][1..]) == s[2] + 256 * FromLe(s[1..][1..][1..]);
    assert FromLe(s[1..][1..][1..]) == s[3] + 256 * FromLe(s[1..][1..][1..][1..]);
  }

  lemma LengthOfBig()
    ensures Le(4, MAX_FRAME_LEN)[0] == Le(4, MAX_FRAME_LEN)[1] == Le(4, MAX_FRAME_LEN)[2] == 0
  {
    LeCons(4, MAX_FRAME_LEN, 0, 0x10_0000);
    LeCons(3, 0x10_0000, 0, 0x1000);
    LeCons(2, 0x1000, 0, 0x10);
  }

  /** So does a tail that is shorter than a length field. */
  lemma BigIsShifted(crc: Checksum, tail: Bytes)
    requires 0 < |tail| < 4
    ensures Recovered(crc, tail + BatchFrame(crc, [BIG])) != [BIG]
  {
    var file := tail + BatchFrame(crc, [BIG]);
    var frame := ReadFrame(crc, file);
    if frame.Read? {
      OneFrameParts(crc, file);
      LengthOfBig();
      BigPayload();
      assert file[3] == Le(4, MAX_FRAME_LEN)[3 - |tail|] == 0;
      ShortLength(file[..4]);
      if Decode(frame.value) == [BIG] { DecodedSize(frame.value, BIG); }
    }
    Swallowed(crc, tail, BIG);
  }

  /** The batch that deletes the empty key under number `n`. */
  function Small(n: nat): Operation {
    Delete(Key([], 0), n)
  }

  /** The number that a tail announcing the largest length gives to the first operation of its frame. */
  function TailNumber(tail: Bytes): nat {
    if |tail| < 13 || ReadHead(tail[13..]).Short? then 0 else ReadHead(tail[13..]).value.1
  }

  lemma SmallPayload(crc: Checksum, n: nat)
    requires n < 2
    ensures |EncodePayload([Small(n)])| == 23 && |BatchFrame(crc, [Small(n)])| == 31 && Recoverable([Small(n)])
  {
    OnePayload(Small(n));
  }

  lemma FirstNumber(tail: Bytes, more: Bytes, op: Operation)
    requires |tail| >= U16_SIZE + 31 && Decode(tail[8..] + more) == [op]
    ensures op.seqNo == TailNumber(tail)
  {
    DecodedNumber(tail[8..] + more, op);
    DropAcross(tail, more);
    ReadHeadSize(tail[13..]);
    ReadHeadLocal(tail[13..], more);
  }

  lemma DecodedNumber(payload: Bytes, op: Operation)
    requires Decode(payload) == [op]
    ensures |payload| >= 5 && ReadHead(payload[5..]).Read? && ReadHead(payload[5..]).value.1 == op.seqNo
  {
    DecodedSize(payload, op);
    assert payload[4..][1..] == payload[5..];
  }

  lemma DropAcross(tail: Bytes, more: Bytes)
    requires |tail| >= 13
    ensures (tail[8..] + more)[5..] == tail[13..] + more
  {
  }

  /** A payload that begins in the tail and ends behind it. */
  lemma AcrossTail(tail: Bytes, more: Bytes, n: nat) returns (part: Bytes)
    requires 8 <= |tail| < 8 + n <= |tail| + |more|
    ensures (tail + more)[8..][..n] == tail[8..] + part
  {
    part := more[..8 + n - |tail|];
  }

  /** A tail that announces the largest length hides a small batch: of one of two, whichever has the other number. */
  lemma SmallIsHidden(crc: Checksum, tail: Bytes, n: nat)
    requires |tail| >= 4 && ReadFrame(crc, tail).Short? && FromLe(tail[..4]) == MAX_FRAME_LEN
    requires n < 2 && n != TailNumber(tail)
    ensures Recovered(crc, tail + BatchFrame(crc, [Small(n)])) != [Small(n)]
  {
    var more := BatchFrame(crc, [Small(n)]);
    var frame := ReadFrame(crc, tail + more);
    SmallPayload(crc, n);
    if frame.Read? {
      TailReads(crc, tail, more);
      OneFrameParts(crc, tail + more);
      var part := AcrossTail(tail, more, MAX_FRAME_LEN);
      if Decode(frame.value) == [Small(n)] { FirstNumber(tail, part, Small(n)); }
    }
    Swallowed(crc, tail, Small(n));
  }

  /** Whatever is left of a frame, some batch that would survive elsewhere does not survive behind it. */
  lemma HiddenBehind(crc: Checksum, tail: Bytes) returns (op: Operation)
    requires tail != [] && ReadFrame(crc, tail).Short?
    ensures Recoverable([op]) && Recovered(crc, tail + BatchFrame(crc, [op])) != [op]
  {
    op := BIG;
    BigPayload();
    if |tail| < 4 {
      BigIsShifted(crc, tail);
    } else if FromLe(tail[..4]) != MAX_FRAME_LEN {
      BigIsHidden(crc, tail);
    } else {
      var n := if TailNumber(tail) == 0 then 1 else 0;
      SmallPayload(crc, n);
      SmallIsHidden(crc, tail, n);
      op := Small(n);
    }
  }

  lemma {:induction false} HiddenBatch(crc: Checksum, file: Bytes) returns (op: Operation)
    requires !Intact(crc, file)
    ensures Recoverable([op])
    ensures Recovered(crc, file + BatchFrame(crc, [op])) != Recovered(crc, file) + [op]
    decreases |file|
  {
    var frame := ReadFrame(crc, file);
    if frame.Short? {
      op := HiddenBehind(crc, file);
    } else {
      op := HiddenBatch(crc, frame.rest);
      var first, more := Decode(frame.value), BatchFrame(crc, [op]);
      OneFrameMore(crc, file, more);
      SeqAssoc(first, Recovered(crc, frame.rest), [op]);
      SamePrefix(first, Recovered(crc, frame.rest + more), Recovered(crc, frame.rest) + [op]);
    }
  }

  lemma SamePrefix<T>(a: seq<T>, b: seq<T>, c: seq<T>)
    ensures a + b == a + c ==> b == c
  {
    assert (a + b)[|a|..] == b && (a + c)[|a|..] == c;
  }

  /**
   What is appended to an old log survives, whatever it is, exactly if the log ends with a whole frame. Recovery does not
   cut a torn tail off, so behind every other log some batch is lost that the format can hold.
   */
  lemma AppendsSurviveIff(crc: Checksum, file: Bytes)
    ensures (forall b | Recoverable(b) :: Recovered(crc, file + BatchFrame(crc, b)) == Recovered(crc, file) + b)
            <==> Intact(crc, file)
  {
    if Intact(crc, file) {
      forall b | Recoverable(b) ensures Recovered(crc, file + BatchFrame(crc, b)) == Recovered(crc, file) + b {
        IntactThen(crc, file, BatchFrame(crc, b));
        SurvivesIff(crc, b);
      }
    } else {
      var op := HiddenBatch(crc, file);
      assert Recoverable([op]);
    }
  }

  /** A tail whose frame is damaged, or whose length field is no length, hides everything: recovery ends there for good. */
  lemma DeadTail(crc: Checksum, tail: Bytes, more: Bytes)
    requires |tail| >= 4 && ReadFrame(crc, tail).Short?
    requires FromLe(tail[..4]) == 0 || FromLe(tail[..4]) > MAX_FRAME_LEN || |tail| >= 8 + FromLe(tail[..4])
    ensures Recovered(crc, tail + more) == []
  {
    if ReadFrame(crc, tail + more).Read? {
      TailReads(crc, tail, more);
      TakeWithin(tail, more, 4);
    }
  }

  /** A crash that cuts a log of whole frames leaves an intact one exactly if it cuts between two frames. */
  lemma CutIsIntactIff(crc: Checksum, batches: seq<seq<Operation>>, cut: nat)
    requires AllRecoverable(batches) && cut <= |Frames(crc, batches)|
    ensures Intact(crc, Frames(crc, batches)[..cut]) <==> cut == |Frames(crc, batches[..Whole(crc, batches, cut)])|
  {
    var k := Whole(crc, batches, cut);
    var later := WholeLater(crc, batches, cut);
    IntactOfCut(crc, Frames(crc, batches), batches[..k], batches[k..], later, cut);
  }

  lemma IntactOfCut(crc: Checksum, file: Bytes, done: seq<seq<Operation>>, rest: seq<seq<Operation>>, later: nat, cut: nat)
    requires file == Frames(crc, done) + Frames(crc, rest) && cut == |Frames(crc, done)| + later
    requires AllRecoverable(done) && AllRecoverable(rest) && later <= |Frames(crc, rest)|
    requires rest != [] ==> later < |BatchFrame(crc, rest[0])|
    ensures Intact(crc, file[..cut]) <==> later == 0
  {
    TakeBehind(Frames(crc, done), Frames(crc, rest), later);
    FramesThenIntact(crc, done, Frames(crc, rest)[..later]);
    if later > 0 { CutIsTorn(crc, rest, later); }
  }

  lemma CutIsTorn(crc: Checksum, batches: seq<seq<Operation>>, cut: nat)
    requires AllRecoverable(batches) && batches != [] && 0 < cut < |BatchFrame(crc, batches[0])|
    ensures !Intact(crc, Frames(crc, batches)[..cut])
  {
    TakeWithin(BatchFrame(crc, batches[0]), Frames(crc, batches[1..]), cut);
    CutFrame(crc, EncodePayload(batches[0]), cut);
  }

  lemma {:induction false} FramesThenIntact(crc: Checksum, batches: seq<seq<Operation>>, tail: Bytes)
    requires AllRecoverable(batches)
    ensures Intact(crc, Frames(crc, batches) + tail) <==> Intact(crc, tail)
  {
    if batches == [] {
      SeqAssoc(tail, [], []);
    } else {
      var rest := Frames(crc, batches[1..]);
      SeqAssoc(BatchFrame(crc, batches[0]), rest, tail);
      FrameBack(crc, EncodePayload(batches[0]), rest + tail);
      FramesThenIntact(crc, batches[1..], tail);
    }
  }

  // ---------- The writer ----------

  /** One more batch leaves the synced ones as they are and adds its operations to the others. */
  lemma SyncedSnoc(batches: seq<seq<Operation>>, ops: seq<Operation>, n: nat)
    requires n <= |batches|
    ensures (batches + [ops])[..n] == batches[..n]
    ensures |Flatten((batches + [ops])[n..])| == |Flatten(batches[n..])| + |ops|
  {
    assert (batches + [ops])[n..] == batches[n..] + [ops];
    FlattenSnoc(batches[n..], ops);
  }

  datatype SyncPolicy = Never | Interval(n: nat) | Always

  lemma {:induction false} WholeAtLeast(crc: Checksum, batches: seq<seq<Operation>>, cut: nat, j: nat)
    requires j <= |batches| && |Frames(crc, batches[..j])| <= cut
    ensures j <= Whole(crc, batches, cut)
  {
    if j > 0 {
      FramesTake(crc, batches, j);
      WholeAtLeast(crc, batches[1..], cut - |BatchFrame(crc, batches[0])|, j - 1);
    }
  }

  /** Cut exactly behind the `j`-th frame. */
  lemma {:induction false} WholeAt(crc: Checksum, batches: seq<seq<Operation>>, j: nat)
    requires j <= |batches|
    ensures Whole(crc, batches, |Frames(crc, batches[..j])|) == j
  {
    if j > 0 {
      FramesTake(crc, batches, j);
      WholeAt(crc, batches[1..], j - 1);
    } else if batches != [] {
      FrameNotEmpty(crc, batches[0]);
    }
  }

  class Wal {
    const crc: Checksum
    const syncPolicy: SyncPolicy
    var file: Bytes                          // everything handed to the buffered writer, after what was there before
    var flushed: nat                         // how much of it is surely on disk
    var opsSinceSync: nat
    ghost const base: Bytes                  // what the disk held when the log was opened
    ghost var batches: seq<seq<Operation>>   // the batches appended since
    ghost var synced: nat                    // how many of them the last sync covered

    ghost predicate Valid()
      reads this
    {
      && synced <= |batches| && (forall i | 0 <= i < |batches| :: batches[i] != [])
      && file == base + Frames(crc, batches)
      && flushed == |base| + |Frames(crc, batches[..synced])|
      && match syncPolicy
         case Never => true
         case Always => synced == |batches|
         case Interval(n) =>
           && opsSinceSync >= |Flatten(batches[synced..])|
           && (n > 0 ==> opsSinceSync < n)
    }

    /** So many operations since the last sync bring about no new one. */
    predicate Unsynced(n: nat) {
      syncPolicy.Interval? && (syncPolicy.n == 0 || n < syncPolicy.n)
    }

    /** After so many operations the policy asks for a sync. */
    ghost predicate SyncDue(n: nat) {
      syncPolicy == Always || (syncPolicy.Interval? && syncPolicy.n > 0 && n >= syncPolicy.n)
    }

    /**
     Opens a log on whatever the disk holds, a torn tail included: it is left as it is. All of it counts as flushed, since
     it was read from disk.
     */
    constructor (crc: Checksum, syncPolicy: SyncPolicy, disk: Bytes)
      ensures Valid() && base == file == disk && batches == [] && this.crc == crc && this.syncPolicy == syncPolicy
      ensures synced == opsSinceSync == 0
    {
      this.crc, this.syncPolicy := crc, syncPolicy;
      file, flushed, opsSinceSync, base, batches, synced := disk, |disk|, 0, disk, [], 0;
      SeqAssoc(disk, [], []);
    }

    method AppendBatch(ops: seq<Operation>)
      requires Valid()
      modifies this
      ensures Valid() && batches == if ops == [] then old(batches) else old(batches) + [ops]
      ensures Unsynced(old(opsSinceSync) + |ops|) ==> synced == old(synced) && opsSinceSync == old(opsSinceSync) + |ops|
      ensures synced == if ops != [] && SyncDue(old(opsSinceSync) + |ops|) then |batches| else old(synced)
    {
      if ops == [] { return; }
      var payload := EncodeOps(ops);
      FramesAppend(crc, batches, ops);
      SeqAssoc(base, Frames(crc, batches), BatchFrame(crc, ops));
      SyncedSnoc(batches, ops, synced);
      file := file + (Le(4, |payload|) + (Le(4, crc(payload)) + payload));
      batches := batches + [ops];
      MaybeSync(|ops|);
    }

    /** `flush` and `sync_data`. */
    method Sync()
      modifies `flushed, `synced
      ensures flushed == |file| && synced == |batches|
    {
      flushed, synced := |file|, |batches|;
    }

    method MaybeSync(nOps: nat)
      requires synced <= |batches| && (forall i | 0 <= i < |batches| :: batches[i] != [])
      requires file == base + Frames(crc, batches)
      requires flushed == |base| + |Frames(crc, batches[..synced])|
      requires syncPolicy.Interval? ==> opsSinceSync + nOps >= |Flatten(batches[synced..])|
      modifies `flushed, `opsSinceSync, `synced
      ensures Valid()
      ensures Unsynced(old(opsSinceSync) + nOps) ==> synced == old(synced) && opsSinceSync == old(opsSinceSync) + nOps
      ensures synced == if SyncDue(old(opsSinceSync) + nOps) then |batches| else old(synced)
    {
      assert batches[..|batches|] == batches && batches[|batches|..] == [];
      match syncPolicy {
        case Never =>
        case Always =>
          Sync();
        case Interval(n) =>
          opsSinceSync := opsSinceSync + nOps;
          if n > 0 && opsSinceSync >= n {
            opsSinceSync := 0;
            Sync();
          }
      }
    }

    /** `close`: flushed and synced; the count of operations since the last sync stays. */
    method Close()
      requires Valid()
      modifies `flushed, `synced
      ensures Valid() && flushed == |file| && synced == |batches|
    {
      assert batches[..|batches|] == batches && batches[|batches|..] == [];
      Sync();
    }

    /** `recover`, over whatever bytes the disk still has. */
    method Recover(disk: Bytes) returns (ops: seq<Operation>)
      ensures ops == Recovered(crc, disk)
    {
      ops := [];
      var rest := disk;
      SeqAssoc(Recovered(crc, disk), [], []);
      while true
        invariant ops + Recovered(crc, rest) == Recovered(crc, disk)
        decreases |rest|
      {
        var frame := ReadFrame(crc, rest);
        if frame.Short? {
          SeqAssoc(ops, [], []);
          return;
        }
        var decoded := DecodeOps(frame.value);
        SeqAssoc(ops, decoded, Recovered(crc, frame.rest));
        ops := ops + decoded;
        rest := frame.rest;
      }
    }

    /** Whatever a crash leaves, what was there when the log was opened is still recovered. */
    lemma CrashKeepsBase(cut: nat) returns (grown: seq<Operation>)
      requires Valid() && flushed <= cut <= |file|
      ensures Recovered(crc, file[..cut]) == Recovered(crc, base) + grown
    {
      grown := BaseSurvives(crc, base, Frames(crc, batches), cut - |base|, file, cut);
    }

    /** Behind an intact old part the whole file stands for everything logged. */
    lemma WholeFile()
      requires Valid() && Intact(crc, base) && AllRecoverable(batches)
      ensures Recovered(crc, file) == Recovered(crc, base) + Flatten(batches)
    {
      IntactThen(crc, base, Frames(crc, batches));
      RecoverLog(crc, batches, []);
      SeqAssoc(Frames(crc, batches), [], []);
      SeqAssoc(Flatten(batches), [], []);
    }

    /** A crash may cut the log right behind what was synced. */
    lemma WorstCrash()
      requires Valid() && Intact(crc, base) && AllRecoverable(batches)
      ensures flushed <= |file| && Recovered(crc, file[..flushed]) == Recovered(crc, base) + Flatten(batches[..synced])
      ensures flushed == |file| <==> synced == |batches|
    {
      SyncedLength(crc, batches, synced);
      WholeAt(crc, batches, synced);
      RecoverTail(crc, base, batches, |Frames(crc, batches[..synced])|, file, flushed);
    }

    /**
     A crash keeps at least the flushed bytes. Behind an intact old part, what is recovered is the operations of the first
     batches, no batch in part; the lost ones are fewer than the sync interval, and none under `Always`.
     */
    lemma CrashLoss(cut: nat) returns (k: nat)
      requires Valid() && Intact(crc, base) && AllRecoverable(batches) && flushed <= cut <= |file|
      ensures synced <= k <= |batches| && Recovered(crc, file[..cut]) == Recovered(crc, base) + Flatten(batches[..k])
      ensures Flatten(batches) == Flatten(batches[..k]) + Flatten(batches[k..])
      ensures syncPolicy == Always ==> k == |batches|
      ensures syncPolicy.Interval? && syncPolicy.n > 0 ==> |Flatten(batches[k..])| < syncPolicy.n
    {
      ghost var later := cut - |base|;
      k := Whole(crc, batches, later);
      WholeAtLeast(crc, batches, later, synced);
      RecoverTail(crc, base, batches, later, file, cut);
      LostPart(batches, synced, k);
    }
  }

  lemma LostPart(batches: seq<seq<Operation>>, synced: nat, k: nat)
    requires synced <= k <= |batches|
    ensures Flatten(batches) == Flatten(batches[..k]) + Flatten(batches[k..])
    ensures |Flatten(batches[k..])| <= |Flatten(batches[synced..])|
  {
    SplitBatches(batches, k);
    FlattenPart(batches, synced, k);
  }

  lemma SyncedLength(crc: Checksum, batches: seq<seq<Operation>>, j: nat)
    requires j <= |batches|
    ensures |Frames(crc, batches[..j])| <= |Frames(crc, batches)|
    ensures |Frames(crc, batches[..j])| == |Frames(crc, batches)| <==> j == |batches|
  {
    FramesSplit(crc, batches, j);
    if j < |batches| {
      FramesSplit(crc, batches, j + 1);
      FrameNotEmpty(crc, batches[j]);
    } else {
      assert batches[..j] == batches;
    }
  }

  lemma SplitBatches(batches: seq<seq<Operation>>, k: nat)
    requires k <= |batches|
    ensures Flatten(batches) == Flatten(batches[..k]) + Flatten(batches[k..])
  {
    assert batches == batches[..k] + batches[k..];
    FlattenConcat(batches[..k], batches[k..]);
  }

  lemma FlattenPart(batches: seq<seq<Operation>>, n: nat, k: nat)
    requires n <= k <= |batches|
    ensures |Flatten(batches[k..])| <= |Flatten(batches[n..])|
  {
    SplitBatches(batches[n..], k - n);
    assert batches[n..][k - n..] == batches[k..];
  }
}
