/**
 Table schemas (src/schema.rs:77-191): the tag cells of a row become the tag bytes of its key, the field cells its
 value. One column is stored raw, several with length prefixes; either way the cells can be told apart again.
 */
module Schema {
  import opened Rows
  import opened Wal

  datatype SemanticType = Tag | Timestamp | Field

  type Cells = seq<Bytes>

  /** `push_len_prefixed` for every cell. */
  function Prefixed(cells: Cells): Bytes {
    if cells == [] then [] else EncodeValue(cells[0]) + Prefixed(cells[1..])
  }

  /** `take_len_prefixed` `n` times; nothing if a slice would be out of range, where the source panics. */
  function TakeCells(n: nat, data: Bytes): Option<Cells> {
    if n == 0 then Some([])
    else
      var first := ReadValue(data);
      if first.Short? then None
      else
        var rest := TakeCells(n - 1, first.rest);
        if rest.None? then None else Some([first.value] + rest.value)
  }

  predicate CellsFit(cells: Cells) {
    forall c | c in cells :: |c| < U32_SIZE
  }

  lemma {:induction false} PrefixedSnoc(cells: Cells, c: Bytes)
    ensures Prefixed(cells + [c]) == Prefixed(cells) + EncodeValue(c)
  {
    if cells == [] {
      assert [c][1..] == [] && EncodeValue(c) + [] == EncodeValue(c) && [] + [c] == [c];
    } else {
      assert (cells + [c])[1..] == cells[1..] + [c];
      PrefixedSnoc(cells[1..], c);
      SeqAssoc(EncodeValue(cells[0]), Prefixed(cells[1..]), EncodeValue(c));
    }
  }

  /** A length that does not fit its prefix is read back reduced, so the cell never comes back. */
  lemma LongCellLost(c: Bytes, rest: Bytes)
    requires |c| >= U32_SIZE
    ensures ReadValue(EncodeValue(c) + rest).Short? || ReadValue(EncodeValue(c) + rest).value != c
  {
    PowSizes();
    SeqAssoc(Le(4, |c|), c, rest);
    LeTruncates(4, |c|);
    var d := Le(4, |c|) + (c + rest);
    assert d[..4] == Le(4, |c|);
    assert ReadInt(4, d).value < U32_SIZE;
  }

  lemma FirstFits(cells: Cells, tail: Bytes)
    requires cells != [] && |cells[0]| < U32_SIZE
    ensures TakeCells(|cells|, Prefixed(cells) + tail) == Some(cells) <==>
              TakeCells(|cells| - 1, Prefixed(cells[1..]) + tail) == Some(cells[1..])
    ensures CellsFit(cells) <==> CellsFit(cells[1..])
  {
    SeqAssoc(EncodeValue(cells[0]), Prefixed(cells[1..]), tail);
    ReadValueBack(cells[0], Prefixed(cells[1..]) + tail);
    assert cells == [cells[0]] + cells[1..];
  }

  lemma FirstTooLong(cells: Cells, tail: Bytes)
    requires cells != [] && |cells[0]| >= U32_SIZE
    ensures TakeCells(|cells|, Prefixed(cells) + tail) != Some(cells) && !CellsFit(cells)
  {
    SeqAssoc(EncodeValue(cells[0]), Prefixed(cells[1..]), tail);
    LongCellLost(cells[0], Prefixed(cells[1..]) + tail);
    assert cells[0] in cells;
  }

  /** Length-prefixed cells come back exactly if every length fits its prefix. */
  lemma {:induction false} PrefixedBack(cells: Cells, tail: Bytes)
    ensures TakeCells(|cells|, Prefixed(cells) + tail) == Some(cells) <==> CellsFit(cells)
  {
    if cells != [] {
      if |cells[0]| < U32_SIZE {
        PrefixedBack(cells[1..], tail);
        FirstFits(cells, tail);
      } else {
        FirstTooLong(cells, tail);
      }
    }
  }

  /** Distinct tuples of as many cells share an encoding only if one of them has a cell of 4 GiB or more. */
  lemma PrefixedInjective(a: Cells, b: Cells)
    requires |a| == |b| && Prefixed(a) == Prefixed(b)
    ensures a == b || !CellsFit(a) || !CellsFit(b)
  {
    PrefixedBack(a, []);
    PrefixedBack(b, []);
  }

  lemma PrefixedTwo(x: Bytes, y: Bytes)
    ensures Prefixed([x, y]) == EncodeValue(x) + EncodeValue(y)
  {
    assert [x, y][1..] == [y] && [y][1..] == [];
    assert Prefixed([]) == [] && EncodeValue(y) + [] == EncodeValue(y);
  }

  lemma WrappedCell(c: Bytes)
    requires |c| == 0 || |c| == U32_SIZE
    ensures EncodeValue(c) == Le(4, 0) + c
  {
    PowSizes();
    LeTruncates(4, |c|);
    LeTruncates(4, 0);
    LeDetermined(Le(4, |c|), Le(4, 0));
  }

  /** And then they may: a length of 4 GiB wraps to zero, and zeros in the cell pass for the next length. */
  lemma LongCellsCollide(rest: Bytes)
    requires |rest| == U32_SIZE - 4
    ensures var a, b := [Le(4, 0) + rest, []], [[], rest + Le(4, 0)];
            a != b && Prefixed(a) == Prefixed(b) && !CellsFit(a) && !CellsFit(b)
  {
    var zeros := Le(4, 0);
    var x, y := zeros + rest, rest + zeros;
    PrefixedTwo(x, []);
    PrefixedTwo([], y);
    WrappedCell(x);
    WrappedCell([]);
    WrappedCell(y);
    SeqAssoc(zeros, [], []);
    SeqAssoc(zeros, zeros + rest, zeros);
    SeqAssoc(zeros, rest, zeros);
    SeqAssoc(zeros, zeros, rest + zeros);
    assert |x| == U32_SIZE;
    assert [x, []][0] == x && [[], y][0] == [];
    assert !CellsFit([x, []]) && !CellsFit([[], y]) by {
      assert |[x, []][0]| >= U32_SIZE && |[[], y][1]| >= U32_SIZE;
    }
  }

  /** One column raw, any other number with prefixes. */
  function Pack(cells: Cells): Bytes {
    if |cells| == 1 then cells[0] else Prefixed(cells)
  }

  function Unpack(n: nat, data: Bytes): Option<Cells> {
    if n == 1 then Some([data]) else TakeCells(n, data)
  }

  lemma UnpackPack(cells: Cells)
    ensures Unpack(|cells|, Pack(cells)) == Some(cells) <==> |cells| == 1 || CellsFit(cells)
  {
    if |cells| == 1 {
      assert [cells[0]] == cells;
    } else {
      PrefixedBack(cells, []);
      assert Prefixed(cells) + [] == Prefixed(cells);
    }
  }

  /** What unpacks to what: any bytes to one cell, and otherwise those that begin with the encoding of so many cells. */
  lemma UnpackIff(n: nat, data: Bytes, cells: Cells)
    ensures Unpack(n, data) == Some(cells) <==>
              if n == 1 then cells == [data] else |cells| == n && CellsFit(cells) && BeginsWith(data, cells)
  {
    TakeCellsIff(n, data, cells);
  }

  /** Packed cells, byte by byte: a single one as it is, several each behind its length in four bytes. */
  ghost predicate PackedAs(out: Bytes, cells: Cells) {
    if |cells| == 1 then out == cells[0]
    else out == Flatten(seq(|cells|, i requires 0 <= i < |cells| => Le(4, |cells[i]|) + cells[i]))
  }

  lemma PackLayout(cells: Cells)
    ensures PackedAs(Pack(cells), cells)
  {
    PrefixedLayout(cells, seq(|cells|, i requires 0 <= i < |cells| => Le(4, |cells[i]|) + cells[i]));
  }

  lemma {:induction false} PrefixedLayout(cells: Cells, parts: seq<Bytes>)
    requires |parts| == |cells| && forall i | 0 <= i < |cells| :: parts[i] == Le(4, |cells[i]|) + cells[i]
    ensures Prefixed(cells) == Flatten(parts)
  {
    if cells != [] { PrefixedLayout(cells[1..], parts[1..]); }
  }

  /** The bytes begin with the encoding of the cells. */
  ghost predicate BeginsWith(d: Bytes, cells: Cells) {
    |Prefixed(cells)| <= |d| && d[..|Prefixed(cells)|] == Prefixed(cells)
  }

  lemma TakenCells(n: nat, d: Bytes, cells: Cells)
    requires |cells| == n && CellsFit(cells) && BeginsWith(d, cells)
    ensures TakeCells(n, d) == Some(cells)
  {
    var k := |Prefixed(cells)|;
    PrefixedBack(cells, d[k..]);
    assert d == d[..k] + d[k..];
  }

  lemma {:induction false} TakenFrom(n: nat, d: Bytes, cells: Cells)
    requires TakeCells(n, d) == Some(cells)
    ensures |cells| == n && CellsFit(cells) && BeginsWith(d, cells)
  {
    if n > 0 {
      var first := ReadValue(d);
      assert cells == [first.value] + cells[1..] && TakeCells(n - 1, first.rest) == Some(cells[1..]);
      TakenFrom(n - 1, first.rest, cells[1..]);
      FirstTaken(d, first.value, first.rest, Prefixed(cells[1..]));
    }
  }

  /** Cells are taken from exactly those bytes that begin with their encoding. */
  lemma TakeCellsIff(n: nat, d: Bytes, cells: Cells)
    ensures TakeCells(n, d) == Some(cells) <==> |cells| == n && CellsFit(cells) && BeginsWith(d, cells)
  {
    if TakeCells(n, d) == Some(cells) {
      TakenFrom(n, d, cells);
    } else if |cells| == n && CellsFit(cells) && BeginsWith(d, cells) {
      TakenCells(n, d, cells);
    }
  }

  lemma FirstTaken(d: Bytes, value: Bytes, rest: Bytes, more: Bytes)
    requires ReadValue(d) == Read(value, rest) && |more| <= |rest| && rest[..|more|] == more
    ensures |value| < U32_SIZE && |EncodeValue(value) + more| <= |d|
    ensures d[..|EncodeValue(value) + more|] == EncodeValue(value) + more
  {
    PowSizes();
    ReadIntBound(4, d);
    ReadValueParts(d, value, rest);
    TakeBehind(EncodeValue(value), rest, |more|);
  }

  /** What `to_le_bytes` and `from_le_bytes` do to a timestamp. */
  function TsCell(ts: I64): Bytes {
    Le(8, ToU64(ts))
  }

  function TsOf(cell: Bytes): I64 {
    ToI64(FromLe(cell))
  }

  lemma TsBack(ts: I64)
    ensures TsOf(TsCell(ts)) == ts
  {
    PowSizes();
    LeTruncates(8, ToU64(ts));
    ModSmall(ToU64(ts), Pow256(8));
    U64Back(ts);
  }

  /** Eight bytes are the cell of the timestamp that they are read as. */
  lemma CellOfTs(cell: Bytes)
    requires |cell| == 8
    ensures TsCell(TsOf(cell)) == cell
  {
    PowSizes();
    FromLeBound(cell);
    TsParts(FromLe(cell));
    LeTruncates(8, FromLe(cell));
    ModSmall(FromLe(cell), U64_SIZE);
    LeDetermined(TsCell(TsOf(cell)), cell);
  }

  datatype TableSchema = TableSchema(columns: seq<SemanticType>, primaryKey: seq<nat>, timeIndex: nat) {

    /** The primary key names different columns, none of them the time column. */
    predicate WellFormed() {
      && (forall j | 0 <= j < |primaryKey| :: primaryKey[j] < |columns|)
      && (forall i, j | 0 <= i < j < |primaryKey| :: primaryKey[i] != primaryKey[j])
      && timeIndex < |columns| && timeIndex !in primaryKey
    }

    /** The cells of the primary key columns, in key order. */
    function TagCells(cells: Cells): (tags: Cells)
      requires WellFormed() && |cells| == |columns|
      ensures |tags| == |primaryKey|
    {
      seq(|primaryKey|, j requires 0 <= j < |primaryKey| => cells[primaryKey[j]])
    }

    function FieldCellsUpTo(cells: Cells, n: nat): Cells
      requires n <= |columns| == |cells|
    {
      if n == 0 then []
      else FieldCellsUpTo(cells, n - 1) + if columns[n - 1].Field? then [cells[n - 1]] else []
    }

    /** The cells of the field columns, in column order. */
    function FieldCells(cells: Cells): Cells
      requires |columns| == |cells|
    {
      FieldCellsUpTo(cells, |columns|)
    }

    /** The cells at the places of the field columns, in column order. */
    ghost predicate AreFields(picked: Cells, cells: Cells)
      requires |columns| == |cells|
    {
      exists pos: seq<nat> ::
        && Rising(pos) && |picked| == |pos| && (forall j: nat :: j in pos <==> j < |columns| && columns[j].Field?)
        && forall i | 0 <= i < |pos| :: pos[i] < |cells| && picked[i] == cells[pos[i]]
    }

    lemma {:induction false} FieldPlaces(cells: Cells, n: nat) returns (pos: seq<nat>)
      requires n <= |columns| == |cells|
      ensures Rising(pos) && |FieldCellsUpTo(cells, n)| == |pos|
      ensures forall j: nat :: j in pos <==> j < n && columns[j].Field?
      ensures forall i | 0 <= i < |pos| :: pos[i] < n && FieldCellsUpTo(cells, n)[i] == cells[pos[i]]
    {
      if n == 0 {
        pos := [];
      } else {
        pos := FieldPlaces(cells, n - 1);
        forall i | 0 <= i < |pos| ensures pos[i] < n - 1 { assert pos[i] in pos; }
        if columns[n - 1].Field? { pos := pos + [n - 1]; }
      }
    }

    lemma FieldCellsAre(cells: Cells)
      requires |columns| == |cells|
      ensures AreFields(FieldCells(cells), cells)
    {
      var pos := FieldPlaces(cells, |columns|);
    }

    method EncodeTags(cells: Cells) returns (out: Bytes)
      requires WellFormed() && |cells| == |columns|
      ensures out == Pack(TagCells(cells))
      ensures PackedAs(out, seq(|primaryKey|, j requires 0 <= j < |primaryKey| => cells[primaryKey[j]]))
    {
      PackLayout(TagCells(cells));
      if |primaryKey| == 1 { return cells[primaryKey[0]]; }
      out := [];
      for j := 0 to |primaryKey|
        invariant out == Prefixed(TagCells(cells)[..j])
      {
        PrefixedSnoc(TagCells(cells)[..j], cells[primaryKey[j]]);
        assert TagCells(cells)[..j + 1] == TagCells(cells)[..j] + [cells[primaryKey[j]]];
        out := out + EncodeValue(cells[primaryKey[j]]);
      }
      assert TagCells(cells)[..|primaryKey|] == TagCells(cells);
    }

    method EncodeFields(cells: Cells) returns (out: Bytes)
      requires |cells| == |columns|
      ensures out == Pack(FieldCells(cells))
      ensures AreFields(FieldCells(cells), cells) && PackedAs(out, FieldCells(cells))
    {
      out := PackFields(cells);
      FieldCellsAre(cells);
      PackLayout(FieldCells(cells));
    }

    /** A first walk over the columns counts the fields, a second one packs them. */
    method PackFields(cells: Cells) returns (out: Bytes)
      requires |cells| == |columns|
      ensures out == Pack(FieldCells(cells))
    {
      var first: Option<nat> := None;
      var count := 0;
      for i := 0 to |columns|
        invariant count == |FieldCellsUpTo(cells, i)|
        invariant first.None? <==> count == 0
        invariant first.Some? ==> first.value < i && FieldCellsUpTo(cells, i)[0] == cells[first.value]
      {
        if columns[i].Field? {
          if first.None? { first := Some(i); }
          count := count + 1;
        }
      }
      if count == 1 { return cells[first.value]; }
      out := [];
      for i := 0 to |columns|
        invariant out == Prefixed(FieldCellsUpTo(cells, i))
      {
        if columns[i].Field? {
          PrefixedSnoc(FieldCellsUpTo(cells, i), cells[i]);
          out := out + EncodeValue(cells[i]);
        } else {
          assert FieldCellsUpTo(cells, i) + [] == FieldCellsUpTo(cells, i);
        }
      }
    }

    /** `decode_tags`, with a cursor over the bytes. */
    method DecodeTags(bytes: Bytes) returns (out: Option<Cells>)
      ensures out == Unpack(|primaryKey|, bytes)
    {
      if |primaryKey| == 1 { return Some([bytes]); }
      out := DecodeCells(|primaryKey|, bytes);
    }

    method DecodeFields(bytes: Bytes) returns (out: Option<Cells>)
      ensures out == Unpack(FieldCount(|columns|), bytes)
    {
      var n := 0;
      for i := 0 to |columns|
        invariant n == FieldCount(i)
      {
        if columns[i].Field? { n := n + 1; }
      }
      if n == 1 { return Some([bytes]); }
      out := DecodeCells(n, bytes);
    }

    function FieldCount(n: nat): nat
      requires n <= |columns|
    {
      if n == 0 then 0 else FieldCount(n - 1) + if columns[n - 1].Field? then 1 else 0
    }

    /** `key_to_cells`: the tag cells and the timestamp in their columns, the others empty. */
    method KeyToCells(key: Key) returns (cells: Option<Cells>)
      requires WellFormed()
      ensures cells.None? <==> Unpack(|primaryKey|, key.tags).None?
      ensures cells.Some? ==> |cells.value| == |columns| && TagCells(cells.value) == Unpack(|primaryKey|, key.tags).value
      ensures cells.Some? ==> cells.value[timeIndex] == TsCell(key.ts) == Le(8, key.ts % U64_SIZE)
      ensures cells.Some? ==> forall i | 0 <= i < |columns| && i !in primaryKey && i != timeIndex :: cells.value[i] == []
    {
      var tags := DecodeTags(key.tags);
      if tags.None? { return None; }
      UnpackSize(|primaryKey|, key.tags);
      var out: Cells := seq(|columns|, _ => []);
      for j := 0 to |primaryKey|
        invariant |out| == |columns| && forall i | 0 <= i < j :: out[primaryKey[i]] == tags.value[i]
        invariant forall i | 0 <= i < |columns| && i !in primaryKey[..j] :: out[i] == []
      {
        out := out[primaryKey[j] := tags.value[j]];
        assert primaryKey[..j + 1] == primaryKey[..j] + [primaryKey[j]];
      }
      out := out[timeIndex := TsCell(key.ts)];
      assert primaryKey[..|primaryKey|] == primaryKey;
      assert TagCells(out) == tags.value;
      cells := Some(out);
    }

    method CellsToKey(cells: Cells) returns (key: Key)
      requires WellFormed() && |cells| == |columns|
      ensures key == Key(Pack(TagCells(cells)), TsOf(cells[timeIndex])) && PackedAs(key.tags, TagCells(cells))
      ensures |cells[timeIndex]| == 8 ==> cells[timeIndex] == Le(8, key.ts % U64_SIZE)
    {
      if |cells[timeIndex]| == 8 { CellOfTs(cells[timeIndex]); }
      var tags := EncodeTags(cells);
      key := Key(tags, TsOf(cells[timeIndex]));
    }

    /** Rebuilding the cells of a key recovers every tag and the timestamp. */
    method CellsAndBack(cells: Cells) returns (rebuilt: Option<Cells>)
      requires WellFormed() && |cells| == |columns|
      requires |primaryKey| == 1 || CellsFit(TagCells(cells))
      requires exists ts: I64 :: cells[timeIndex] == TsCell(ts)
      ensures rebuilt.Some? && |rebuilt.value| == |columns|
      ensures forall j | 0 <= j < |primaryKey| :: rebuilt.value[primaryKey[j]] == cells[primaryKey[j]]
      ensures rebuilt.value[timeIndex] == cells[timeIndex]
    {
      var key := CellsToKey(cells);
      UnpackPack(TagCells(cells));
      rebuilt := KeyToCells(key);
      ghost var ts: I64 :| cells[timeIndex] == TsCell(ts);
      TsBack(ts);
      assert TagCells(rebuilt.value) == TagCells(cells);
      forall j | 0 <= j < |primaryKey| ensures rebuilt.value[primaryKey[j]] == cells[primaryKey[j]] {
        assert TagCells(rebuilt.value)[j] == TagCells(cells)[j];
      }
    }

    /** Rows with the same key have the same tags and the same timestamp, whatever their number of tag columns. */
    lemma SameKeySameTags(a: Cells, b: Cells)
      requires WellFormed() && |a| == |columns| && |b| == |columns|
      requires |primaryKey| == 1 || (CellsFit(TagCells(a)) && CellsFit(TagCells(b)))
      requires Pack(TagCells(a)) == Pack(TagCells(b))
      ensures forall j | 0 <= j < |primaryKey| :: a[primaryKey[j]] == b[primaryKey[j]]
    {
      UnpackPack(TagCells(a));
      UnpackPack(TagCells(b));
      forall j | 0 <= j < |primaryKey| ensures a[primaryKey[j]] == b[primaryKey[j]] {
        assert TagCells(a)[j] == TagCells(b)[j];
      }
    }

    /** The same for values: field cells come back exactly if they fit. */
    lemma FieldsBack(cells: Cells)
      requires |cells| == |columns|
      ensures Unpack(FieldCount(|columns|), Pack(FieldCells(cells))) == Some(FieldCells(cells))
              <==> FieldCount(|columns|) == 1 || CellsFit(FieldCells(cells))
      ensures AreFields(FieldCells(cells), cells) && |FieldCells(cells)| == FieldCount(|columns|)
    {
      FieldCellsAre(cells);
      FieldCountIs(cells, |columns|);
      UnpackPack(FieldCells(cells));
    }

    lemma {:induction false} FieldCountIs(cells: Cells, n: nat)
      requires n <= |columns| == |cells|
      ensures |FieldCellsUpTo(cells, n)| == FieldCount(n)
    {
      if n > 0 { FieldCountIs(cells, n - 1); }
    }
  }

  lemma {:induction false} TakeSize(n: nat, data: Bytes)
    ensures TakeCells(n, data).Some? ==> |TakeCells(n, data).value| == n
  {
    if n > 0 && ReadValue(data).Read? { TakeSize(n - 1, ReadValue(data).rest); }
  }

  lemma UnpackSize(n: nat, data: Bytes)
    ensures Unpack(n, data).Some? ==> |Unpack(n, data).value| == n
  {
    TakeSize(n, data);
  }

  /** The loop of both decoders; `pos` moves behind each cell. */
  method DecodeCells(n: nat, data: Bytes) returns (out: Option<Cells>)
    ensures out == TakeCells(n, data)
  {
    var cells: Cells := [];
    var rest := data;
    PrependSnoc([], [], TakeCells(n, data));
    for i := 0 to n
      invariant TakeCells(n, data) == Prepend(cells, TakeCells(n - i, rest))
    {
      var cell := ReadValue(rest);
      if cell.Short? { return None; }
      PrependSnoc(cells, cell.value, TakeCells(n - i - 1, cell.rest));
      cells := cells + [cell.value];
      rest := cell.rest;
    }
    PrependSnoc(cells, [], None);
    out := Some(cells);
  }

  function Prepend(cells: Cells, more: Option<Cells>): Option<Cells> {
    if more.None? then None else Some(cells + more.value)
  }

  lemma PrependSnoc(cells: Cells, c: Bytes, more: Option<Cells>)
    ensures Prepend(cells + [c], more) == Prepend(cells, if more.None? then None else Some([c] + more.value))
    ensures Prepend(cells, Some([])) == Some(cells) && Prepend([], more) == more
  {
    if more.Some? { assert cells + [c] + more.value == cells + ([c] + more.value); }
    assert cells + [] == cells;
    assert more.Some? ==> [] + more.value == more.value;
  }
}
