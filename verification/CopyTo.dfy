/** COPY TO: every row of every shard becomes one item of the file. */
module CopyTo {
  import opened Base
  import opened Values
  import opened Framing
  import opened Canonical
  import opened Columns
  import opened ValueIn
  import opened Rows

  datatype Options = Options(shape: RowShape, canonical: Option<Canon>) {
    /** Only CBOR has a canonical form. */
    predicate Fit(wire: Wire) {
      canonical.Some? ==> wire.CborWire?
    }

    function Framed(v: Cbor): Cbor {
      if canonical.Some? then Canonicalize(v, canonical.value) else v
    }
  }

  /** One buffered batch: its own column names and types, and its columns. */
  datatype Shard = Shard(fields: seq<Field>, len: nat, columns: seq<Column>) {
    ghost predicate Valid() {
      BatchOk(fields, len, columns)
    }

    ghost function Rows(): (r: seq<seq<Cell>>)
      requires Valid()
      ensures |r| == len
    {
      BatchRows(fields, len, columns)
    }
  }

  // ---- What a file holds ----

  function WriteEach(pf: Platform, fields: seq<Field>, cells: seq<Cell>): (r: seq<Cbor>)
    requires |fields| == |cells|
    ensures |r| == |fields|
    ensures forall i | 0 <= i < |fields| :: r[i] == WriteCell(pf, fields[i].ty, cells[i])
  {
    seq(|fields|, i requires 0 <= i < |fields| => WriteCell(pf, fields[i].ty, cells[i]))
  }

  /** A row as one value: keyed by column name, or by position. */
  function RowValue(pf: Platform, shape: RowShape, fields: seq<Field>, cells: seq<Cell>): Cbor
    requires |fields| == |cells|
  {
    match shape
    case MapShape => Map(WriteParts(pf, fields, cells))
    case ArrayShape => Array(WriteEach(pf, fields, cells))
  }

  function RowBytes(pf: Platform, wire: Wire, opts: Options, fields: seq<Field>, cells: seq<Cell>): Bytes
    requires |fields| == |cells|
  {
    wire.EncodeRow(pf, opts.Framed(RowValue(pf, opts.shape, fields, cells)))
  }

  /** The encoded rows of a table. */
  function Chunks(pf: Platform, wire: Wire, opts: Options, fields: seq<Field>, rows: seq<seq<Cell>>): (r: seq<Bytes>)
    requires forall row | row in rows :: |row| == |fields|
    ensures |r| == |rows|
  {
    seq(|rows|, i requires 0 <= i < |rows| => RowBytes(pf, wire, opts, fields, rows[i]))
  }

  ghost function ShardChunks(pf: Platform, wire: Wire, opts: Options, shard: Shard): (r: seq<Bytes>)
    requires shard.Valid()
    ensures |r| == shard.len
  {
    RowWidths(shard);
    Chunks(pf, wire, opts, shard.fields, shard.Rows())
  }

  ghost function FileChunks(pf: Platform, wire: Wire, opts: Options, shards: seq<Shard>): seq<Bytes>
    requires forall s | s in shards :: s.Valid()
  {
    if |shards| == 0 then []
    else ShardChunks(pf, wire, opts, shards[0]) + FileChunks(pf, wire, opts, shards[1..])
  }

  lemma RowWidths(shard: Shard)
    requires shard.Valid()
    ensures forall row | row in shard.Rows() :: |row| == |shard.fields|
  {
    FieldCount(shard.fields, shard.columns);
  }

  // ---- Writing ----

  /** The values of one row, column by column. */
  method RowCells(pf: Platform, shard: Shard, row: nat) returns (cells: seq<Cbor>)
    requires shard.Valid() && row < shard.len
    ensures |shard.Rows()[row]| == |shard.fields| && cells == WriteEach(pf, shard.fields, shard.Rows()[row])
  {
    ghost var parts := shard.Rows()[row];
    hide LayoutOk, Len, Cells, ColumnOf, ColumnsOf, WriteCell;
    FieldCount(shard.fields, shard.columns);
    cells := [];
    for j := 0 to |shard.columns|
      invariant |cells| == j
      invariant forall i | 0 <= i < j :: cells[i] == WriteCell(pf, shard.fields[i].ty, parts[i])
    {
      ColumnAt(shard.fields, shard.columns, j);
      assert LayoutOk(shard.columns[j]) && Len(shard.columns[j]) == shard.len;
      var v := ValueAt(pf, shard.fields[j].ty, shard.columns[j], row);
      cells := cells + [v];
    }
  }

  /** The entries of a map-shaped row. */
  method Keyed(pf: Platform, fields: seq<Field>, cells: seq<Cbor>, ghost parts: seq<Cell>) returns (entries: seq<Entry>)
    requires |parts| == |fields| && cells == WriteEach(pf, fields, parts)
    ensures entries == WriteParts(pf, fields, parts)
  {
    hide WriteCell;
    entries := [];
    for j := 0 to |fields|
      invariant |entries| == j
      invariant forall i | 0 <= i < j :: entries[i] == Entry(Text(fields[i].name), cells[i])
    {
      entries := entries + [Entry(Text(fields[j].name), cells[j])];
    }
  }

  /** The row loop of `close`: the file is the rows of all shards in order, one item after the other, and their number
      is returned. */
  method Close(pf: Platform, wire: Wire, opts: Options, shards: seq<Shard>) returns (sink: Bytes, written: nat)
    requires forall s | s in shards :: s.Valid()
    ensures sink == Concat(FileChunks(pf, wire, opts, shards))
    ensures written == |FileChunks(pf, wire, opts, shards)|
  {
    hide ShardChunks, Shard.Valid, Concat, FileChunks, RowBytes;
    sink, written := [], 0;
    ghost var done: seq<Bytes> := [];
    NothingWritten(pf, wire, opts, shards);
    for k := 0 to |shards|
      invariant sink == Concat(done) && written == |done|
      invariant done + FileChunks(pf, wire, opts, shards[k..]) == FileChunks(pf, wire, opts, shards)
    {
      var shard := shards[k];
      ShardNext(pf, wire, opts, shards, k);
      ghost var before, chunks := done, ShardChunks(pf, wire, opts, shard);
      assert chunks[..0] == [] && before + [] == before;
      for row := 0 to shard.len
        invariant done == before + chunks[..row]
        invariant sink == Concat(done) && written == |done|
      {
        var bytes := WriteRow(pf, wire, opts, shard, row);
        ConcatAppend(done, [bytes]);
        OneChunk(bytes);
        assert chunks[..row + 1] == chunks[..row] + [bytes];
        done := done + [bytes];
        sink, written := sink + bytes, written + 1;
      }
      assert chunks[..shard.len] == chunks;
      assert before + (chunks + FileChunks(pf, wire, opts, shards[k + 1..]))
          == (before + chunks) + FileChunks(pf, wire, opts, shards[k + 1..]);
    }
    AllWrittenOut(pf, wire, opts, shards);
    assert done + [] == done;
  }

  method WriteRow(pf: Platform, wire: Wire, opts: Options, shard: Shard, row: nat) returns (bytes: Bytes)
    requires shard.Valid() && row < shard.len
    ensures bytes == ShardChunks(pf, wire, opts, shard)[row]
  {
    hide WriteParts, Canonicalize, BatchOk;
    var cells := RowCells(pf, shard, row);
    var value: Cbor;
    if opts.shape == ArrayShape {
      value := Array(cells);
    } else {
      var entries := Keyed(pf, shard.fields, cells, shard.Rows()[row]);
      value := Map(entries);
    }
    if opts.canonical.Some? {
      value := Canonicalize(value, opts.canonical.value);
    }
    bytes := wire.EncodeRow(pf, value);
  }

  lemma NothingWritten(pf: Platform, wire: Wire, opts: Options, shards: seq<Shard>)
    requires forall s | s in shards :: s.Valid()
    ensures Concat([]) == []
    ensures [] + FileChunks(pf, wire, opts, shards[0..]) == FileChunks(pf, wire, opts, shards)
  {
    assert shards[0..] == shards;
  }

  lemma AllWrittenOut(pf: Platform, wire: Wire, opts: Options, shards: seq<Shard>)
    ensures FileChunks(pf, wire, opts, shards[|shards|..]) == []
  {
  }

  lemma ShardNext(pf: Platform, wire: Wire, opts: Options, shards: seq<Shard>, k: nat)
    requires k < |shards| && forall s | s in shards :: s.Valid()
    ensures FileChunks(pf, wire, opts, shards[k..])
            == ShardChunks(pf, wire, opts, shards[k]) + FileChunks(pf, wire, opts, shards[k + 1..])
  {
    hide ShardChunks, Shard.Valid;
    assert shards[k..][0] == shards[k] && shards[k..][1..] == shards[k + 1..];
  }

  lemma OneChunk(bytes: Bytes)
    ensures Concat([bytes]) == bytes
  {
    assert Concat([bytes]) == bytes + Concat([]);
  }
}
