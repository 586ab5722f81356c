/** How a table row is one item of a file: the wire format, the row shape, and a row read for a schema. */
module Rows {
  import opened Base
  import opened Values
  import opened Framing
  import opened ItemCodec
  import opened Msgpack
  import opened Columns
  import opened ReadCells
  import opened ValueIn
  import opened ValueOut
  import opened RoundTrip

  // ---- Wire formats ----

  /** The byte form of MessagePack values, which a library provides; `carries` are the values it can write. */
  datatype MpCodec = MpCodec(encode: Mp -> Bytes, decode: Parser<Mp>, carries: Mp -> bool) {
    ghost predicate Lawful() {
      SelfDelimiting(decode) && forall m | carries(m) :: decode(encode(m)) == Got(m, [])
    }
  }

  datatype Wire = CborWire | MsgpackWire(codec: MpCodec) {
    ghost predicate Lawful() {
      MsgpackWire? ==> codec.Lawful()
    }

    function Route(): Route {
      if CborWire? then Direct else ViaMsgpack
    }

    /** One row item decoded into the shared value model. */
    function Item(pf: Platform): Parser<Cbor> {
      match this
      case CborWire => Decoder(MAX_NESTING)
      case MsgpackWire(codec) => Bind(codec.decode, (m: Mp) => Return(MpToCbor(pf, m)))
    }

    function EncodeRow(pf: Platform, v: Cbor): Bytes {
      match this
      case CborWire => Encode(v)
      case MsgpackWire(codec) => codec.encode(CborToMp(pf, v))
    }

    /** The format can write the value: for CBOR, its lengths fit the machine. */
    predicate Writes(pf: Platform, v: Cbor) {
      match this
      case CborWire => Addressable(v)
      case MsgpackWire(codec) => codec.carries(CborToMp(pf, v))
    }

    /** What was written can be read again: the CBOR decoder has a nesting limit. */
    predicate Reads(v: Cbor) {
      CborWire? ==> Depth(v) <= MAX_NESTING
    }
  }

  lemma ItemDelimited(wire: Wire, pf: Platform)
    requires wire.Lawful()
    ensures SelfDelimiting(wire.Item(pf))
  {
    match wire
    case CborWire => DecoderDelimited(MAX_NESTING);
    case MsgpackWire(codec) =>
      forall m: Mp
        ensures Delimited(Return(MpToCbor(pf, m)))
      {
        ReturnDelimited(MpToCbor(pf, m));
      }
      BindDelimited(codec.decode, (m: Mp) => Return(MpToCbor(pf, m)));
      forall bs
        ensures Progress(wire.Item(pf), bs)
      {
        assert Progress(codec.decode, bs);
      }
  }

  /** An encoded row is one item, which decodes to the row carried over the wire. */
  lemma ItemOfRow(wire: Wire, pf: Platform, v: Cbor)
    requires wire.Lawful() && wire.Writes(pf, v) && wire.Reads(v)
    ensures wire.Item(pf)(wire.EncodeRow(pf, v)) == Got(Carry(pf, wire.Route(), v), [])
  {
    match wire
    case CborWire =>
      assert Encode(v) + [] == Encode(v);
      DecodeOfEncode(v, [], MAX_NESTING);
    case MsgpackWire(_) =>
  }

  /** A CBOR row nested deeper than the limit is written, and refused when it is read. */
  lemma DeepRowUnreadable(pf: Platform, v: Cbor, rest: Bytes)
    requires Addressable(v) && Depth(v) > MAX_NESTING
    ensures CborWire.Item(pf)(CborWire.EncodeRow(pf, v) + rest) == Failed(NestingLimit)
  {
    DecodeOfEncode(v, rest, MAX_NESTING);
  }

  // ---- Row shapes ----

  datatype RowShape = MapShape | ArrayShape

  predicate Usable(shape: RowShape, item: Cbor) {
    match shape
    case MapShape => item.Map?
    case ArrayShape => item.Array?
  }

  /** The value under the first key that is exactly the text `name`; null when there is none. */
  function FindKey(entries: seq<Entry>, name: Utf8): Cbor {
    if |entries| == 0 then Null
    else if entries[0].key == Text(name) then entries[0].val
    else FindKey(entries[1..], name)
  }

  /** A row's value for column `idx`: by name, or by position. */
  function Project(shape: RowShape, row: Cbor, idx: nat, name: Utf8): Cbor {
    if shape == MapShape && row.Map? then FindKey(row.entries, name)
    else if shape == ArrayShape && row.Array? && idx < |row.items| then row.items[idx]
    else Null
  }

  /** One row as the cells of a schema, or refused; the columns from `k` on. */
  function ReadRowFrom(pf: Platform, schema: seq<Field>, shape: RowShape, row: Cbor, k: nat): (r: Outcome<seq<Cell>>)
    requires k <= |schema|
    ensures r.Ok? <==> forall j | k <= j < |schema| ::
              ReadCell(pf, schema[j].ty, Project(shape, row, j, schema[j].name)).Ok?
    ensures r.Ok? ==> |r.value| == |schema| - k && forall j | k <= j < |schema| ::
              r.value[j - k] == ReadCell(pf, schema[j].ty, Project(shape, row, j, schema[j].name)).value
    decreases |schema| - k
  {
    if k == |schema| then Ok([]) else
      var first :- ReadCell(pf, schema[k].ty, Project(shape, row, k, schema[k].name));
      var rest :- ReadRowFrom(pf, schema, shape, row, k + 1);
      Ok([first] + rest)
  }

  function ReadRow(pf: Platform, schema: seq<Field>, shape: RowShape, row: Cbor): Outcome<seq<Cell>> {
    ReadRowFrom(pf, schema, shape, row, 0)
  }

  /** Every row of a batch, or refused when one of them is. */
  function ReadRows(pf: Platform, schema: seq<Field>, shape: RowShape, rows: seq<Cbor>): (r: Outcome<seq<seq<Cell>>>)
    ensures r.Ok? <==> forall i | 0 <= i < |rows| :: ReadRow(pf, schema, shape, rows[i]).Ok?
    ensures r.Ok? ==> |r.value| == |rows| && forall i | 0 <= i < |rows| ::
              r.value[i] == ReadRow(pf, schema, shape, rows[i]).value
  {
    if |rows| == 0 then Ok([]) else
      var first :- ReadRow(pf, schema, shape, rows[0]);
      var rest :- ReadRows(pf, schema, shape, rows[1..]);
      Ok([first] + rest)
  }

  /** The values of one column over all rows. */
  function ColumnValues(shape: RowShape, rows: seq<Cbor>, idx: nat, name: Utf8): (r: seq<Cbor>)
    ensures |r| == |rows|
  {
    seq(|rows|, i requires 0 <= i < |rows| => Project(shape, rows[i], idx, name))
  }

  /** Where a key that is exactly the text is first found. */
  ghost predicate FirstKeyed(entries: seq<Entry>, name: Utf8, i: nat) {
    i < |entries| && entries[i].key == Text(name) && forall k | 0 <= k < i :: entries[k].key != Text(name)
  }

  /** The value of a column in a row: in a map, the one under the first key that is exactly the column's name; in an
      array, the item in its place; null when there is none, or the row has the other shape. */
  ghost predicate ColumnValue(shape: RowShape, row: Cbor, j: nat, name: Utf8, v: Cbor) {
    match (shape, row)
    case (MapShape, Map(entries)) =>
      || (exists i: nat :: FirstKeyed(entries, name, i) && v == entries[i].val)
      || (v == Null && forall k | 0 <= k < |entries| :: entries[k].key != Text(name))
    case (ArrayShape, Array(items)) => if j < |items| then v == items[j] else v == Null
    case _ => v == Null
  }

  lemma {:induction false} FindKeyValue(entries: seq<Entry>, name: Utf8)
    ensures ColumnValue(MapShape, Map(entries), 0, name, FindKey(entries, name))
  {
    if |entries| > 0 {
      if entries[0].key == Text(name) {
        assert FirstKeyed(entries, name, 0);
      } else {
        var rest := entries[1..];
        FindKeyValue(rest, name);
        assert forall k | 0 < k < |entries| :: entries[k] == rest[k - 1];
        if i: nat :| FirstKeyed(rest, name, i) && FindKey(rest, name) == rest[i].val {
          assert FirstKeyed(entries, name, i + 1);
        }
      }
    }
  }

  /** A row is read column by column from these values. */
  lemma ReadRowForms(pf: Platform, schema: seq<Field>, shape: RowShape, row: Cbor) returns (vs: seq<Cbor>)
    ensures |vs| == |schema| && forall j | 0 <= j < |schema| :: ColumnValue(shape, row, j, schema[j].name, vs[j])
    ensures var r := ReadRow(pf, schema, shape, row);
            && (r.Ok? <==> forall j | 0 <= j < |schema| :: ReadCell(pf, schema[j].ty, vs[j]).Ok?)
            && (r.Ok? ==> |r.value| == |schema|
                          && forall j | 0 <= j < |schema| :: ReadCell(pf, schema[j].ty, vs[j]) == Ok(r.value[j]))
  {
    hide ReadCell, ReadRow, FindKey;
    vs := seq(|schema|, j requires 0 <= j < |schema| => Project(shape, row, j, schema[j].name));
    ReadRowCells(pf, schema, shape, row);
    if shape == MapShape && row.Map? {
      forall j | 0 <= j < |schema|
        ensures ColumnValue(shape, row, j, schema[j].name, vs[j])
      {
        FindKeyValue(row.entries, schema[j].name);
      }
    }
  }

  /** A column absent from a row is NULL in it. */
  lemma AbsentColumn(pf: Platform, schema: seq<Field>, shape: RowShape, row: Cbor, j: nat)
    requires j < |schema|
    requires match (shape, row)
             case (MapShape, Map(entries)) => forall k | 0 <= k < |entries| :: entries[k].key != Text(schema[j].name)
             case (ArrayShape, Array(items)) => j >= |items|
             case _ => true
    ensures var r := ReadRow(pf, schema, shape, row); r.Ok? ==> |r.value| == |schema| && r.value[j] == NullCell
  {
    hide ReadRow;
    var vs := ReadRowForms(pf, schema, shape, row);
    assert ColumnValue(shape, row, j, schema[j].name, vs[j]);
    assert vs[j] == Null;
    assert ReadCell(pf, schema[j].ty, Null) == Ok(NullCell);
  }

  /** The array row [1], read as an INTEGER, a VARCHAR and a DOUBLE column, is (1, NULL, NULL). */
  lemma ShortRow(pf: Platform, a: Utf8, b: Utf8, c: Utf8)
    ensures ReadRow(pf, [Field(a, IntegerType(I32)), Field(b, TextType), Field(c, Float64Type)], ArrayShape,
                    Array([Integer(1)]))
            == Ok([NumCell(1), NullCell, NullCell])
  {
    var schema := [Field(a, IntegerType(I32)), Field(b, TextType), Field(c, Float64Type)];
    assert ReadCell(pf, IntegerType(I32), Integer(1)) == Ok(NumCell(1));
    assert forall ty :: ReadCell(pf, ty, Null) == Ok(NullCell);
    hide ReadCell;
    var vs := ReadRowForms(pf, schema, ArrayShape, Array([Integer(1)]));
    assert vs == [Integer(1), Null, Null];
    hide ReadRow;
    var cells := ReadRow(pf, schema, ArrayShape, Array([Integer(1)])).value;
    assert cells == [cells[0], cells[1], cells[2]];
  }

  // ---- Batches ----

  /** The columns of a batch fit together. */
  ghost predicate BatchOk(schema: seq<Field>, len: nat, columns: seq<Column>) {
    ColumnsOf(schema, columns) && forall c | c in columns :: LayoutOk(c) && Len(c) == len
  }

  /** The rows of a batch. */
  ghost function BatchRows(schema: seq<Field>, len: nat, columns: seq<Column>): (r: seq<seq<Cell>>)
    requires BatchOk(schema, len, columns)
    ensures |r| == len
  {
    seq(len, i requires 0 <= i < len => RowAcross(columns, i))
  }

  /** `build_batch`: every row is projected onto every column, and the columns are built. With at least one column, it
      succeeds exactly when each row can be read on its own, and holds those rows. */
  method BuildBatch(pf: Platform, schema: seq<Field>, shape: RowShape, rows: seq<Cbor>)
    returns (r: Outcome<seq<Column>>)
    ensures r.Ok? <==> |schema| > 0 && ReadRows(pf, schema, shape, rows).Ok?
    ensures r.Ok? ==> BatchOk(schema, |rows|, r.value)
                      && BatchRows(schema, |rows|, r.value) == ReadRows(pf, schema, shape, rows).value
  {
    hide ReadCell, ReadAll, ReadRow, ReadRows, Project;
    BatchRefused(pf, schema, shape, rows);
    var columns: seq<Column> := [];
    for k := 0 to |schema|
      invariant |columns| == k
      invariant forall j | 0 <= j < k ::
          ValueOut.Holds(pf, schema[j].ty, ColumnValues(shape, rows, j, schema[j].name), columns[j])
    {
      var column := BuildColumn(pf, schema[k].ty, ColumnValues(shape, rows, k, schema[k].name));
      if column.Refused? {
        return Refused;
      }
      columns := columns + [column.value];
    }
    if |columns| == 0 {
      return Refused;
    }
    BatchRead(pf, schema, shape, rows, columns);
    return Ok(columns);
  }

  lemma ReadRowCells(pf: Platform, schema: seq<Field>, shape: RowShape, row: Cbor)
    ensures var r := ReadRow(pf, schema, shape, row);
            && (r.Ok? <==> forall j | 0 <= j < |schema| ::
                  ReadCell(pf, schema[j].ty, Project(shape, row, j, schema[j].name)).Ok?)
            && (r.Ok? ==> |r.value| == |schema| && forall j | 0 <= j < |schema| ::
                  r.value[j] == ReadCell(pf, schema[j].ty, Project(shape, row, j, schema[j].name)).value)
  {
    hide ReadCell, ReadRowFrom;
  }

  lemma BatchRefused(pf: Platform, schema: seq<Field>, shape: RowShape, rows: seq<Cbor>)
    ensures ReadRows(pf, schema, shape, rows).Ok?
            <==> forall j | 0 <= j < |schema| ::
                   ReadAll(pf, schema[j].ty, ColumnValues(shape, rows, j, schema[j].name)).Ok?
  {
    hide ReadCell, ReadAll, ReadRow, ReadRows, Project;
    forall i | 0 <= i < |rows|
      ensures ReadRow(pf, schema, shape, rows[i]).Ok?
              <==> forall j | 0 <= j < |schema| ::
                     ReadCell(pf, schema[j].ty, Project(shape, rows[i], j, schema[j].name)).Ok?
    {
      ReadRowCells(pf, schema, shape, rows[i]);
    }
    forall j | 0 <= j < |schema|
      ensures ReadAll(pf, schema[j].ty, ColumnValues(shape, rows, j, schema[j].name)).Ok?
              <==> forall i | 0 <= i < |rows| ::
                     ReadCell(pf, schema[j].ty, Project(shape, rows[i], j, schema[j].name)).Ok?
    {
      var vs := ColumnValues(shape, rows, j, schema[j].name);
      assert forall i | 0 <= i < |rows| :: vs[i] == Project(shape, rows[i], j, schema[j].name);
    }
  }

  lemma BatchRead(pf: Platform, schema: seq<Field>, shape: RowShape, rows: seq<Cbor>, columns: seq<Column>)
    requires ReadRows(pf, schema, shape, rows).Ok? && |columns| == |schema|
    requires forall j | 0 <= j < |schema| ::
               ValueOut.Holds(pf, schema[j].ty, ColumnValues(shape, rows, j, schema[j].name), columns[j])
    ensures BatchOk(schema, |rows|, columns)
    ensures BatchRows(schema, |rows|, columns) == ReadRows(pf, schema, shape, rows).value
  {
    hide ReadCell, ReadAll, ReadRow, ReadRows, Project, Cells, LayoutOk, ColumnOf;
    forall j | 0 <= j < |columns|
      ensures LayoutOk(columns[j]) && Len(columns[j]) == |rows| && ColumnOf(schema[j].ty, columns[j])
    {
      assert ValueOut.Holds(pf, schema[j].ty, ColumnValues(shape, rows, j, schema[j].name), columns[j]);
      ColumnLayout(schema[j].ty, columns[j]);
    }
    ColumnsFit(schema, columns);
    var built, read := BatchRows(schema, |rows|, columns), ReadRows(pf, schema, shape, rows).value;
    forall i | 0 <= i < |rows|
      ensures built[i] == read[i]
    {
      ReadRowCells(pf, schema, shape, rows[i]);
      forall j | 0 <= j < |schema|
        ensures built[i][j] == read[i][j]
      {
        assert ValueOut.Holds(pf, schema[j].ty, ColumnValues(shape, rows, j, schema[j].name), columns[j]);
        assert ColumnValues(shape, rows, j, schema[j].name)[i] == Project(shape, rows[i], j, schema[j].name);
      }
      assert built[i] == read[i];
    }
    assert built == read;
  }
}
