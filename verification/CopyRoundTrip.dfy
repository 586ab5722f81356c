/** A table written by COPY TO and loaded by COPY FROM. */
module CopyRoundTrip {
  import opened Base
  import opened Values
  import opened Framing
  import opened Streaming
  import opened Canonical
  import opened Columns
  import opened ReadCells
  import opened ValueIn
  import opened RoundTrip
  import opened CanonicalCells
  import opened Rows
  import opened CopyFrom
  import opened CopyTo
  import opened Producer

  // ---- One row through the file ----

  /** One value of a row as the reader decodes it. */
  function Sent(pf: Platform, wire: Wire, opts: Options, v: Cbor): Cbor {
    Carry(pf, wire.Route(), opts.Framed(v))
  }

  function RowSent(pf: Platform, wire: Wire, opts: Options, fields: seq<Field>, cells: seq<Cell>): Cbor
    requires |fields| == |cells|
  {
    Sent(pf, wire, opts, RowValue(pf, opts.shape, fields, cells))
  }

  lemma {:induction false} FindIsLookup(entries: seq<Entry>, name: Utf8)
    requires forall e | e in entries :: e.key.Text?
    ensures FindKey(entries, name) == Lookup(entries, name)
  {
    if |entries| > 0 {
      assert entries[0] in entries;
      FindIsLookup(entries[1..], name);
    }
  }

  /** The entries of a map-shaped row as the reader decodes them. */
  function EntriesSent(pf: Platform, wire: Wire, opts: Options, fields: seq<Field>, cells: seq<Cell>): seq<Entry>
    requires |fields| == |cells|
  {
    if opts.canonical.Some? then StructEntriesSent(pf, fields, cells, opts.canonical.value)
    else CarryEntries(pf, wire.Route(), WriteParts(pf, fields, cells))
  }

  lemma MapRowSent(pf: Platform, wire: Wire, opts: Options, fields: seq<Field>, cells: seq<Cell>)
    requires |fields| == |cells| && opts.Fit(wire) && opts.shape == MapShape
    ensures RowSent(pf, wire, opts, fields, cells) == Map(EntriesSent(pf, wire, opts, fields, cells))
  {
    hide WriteParts, SortEntries, CanonEntries, CarryEntries;
    if opts.canonical.None? {
      CarryMap(pf, wire.Route(), WriteParts(pf, fields, cells));
    }
  }

  lemma EntrySent(pf: Platform, wire: Wire, opts: Options, fields: seq<Field>, cells: seq<Cell>, j: nat)
    requires j < |fields| == |cells| && opts.canonical.None?
    ensures EntriesSent(pf, wire, opts, fields, cells)[j]
            == Entry(Text(fields[j].name), Sent(pf, wire, opts, WriteCell(pf, fields[j].ty, cells[j])))
  {
    hide WriteCell, Carry;
    CarryLeaf(pf, wire.Route(), Text(fields[j].name));
  }

  lemma TextEntriesSent(pf: Platform, wire: Wire, opts: Options, fields: seq<Field>, cells: seq<Cell>)
    requires |fields| == |cells| && DistinctNames(fields)
    ensures forall e | e in EntriesSent(pf, wire, opts, fields, cells) :: e.key.Text?
  {
    hide WriteParts, CarryEntries, SortEntries, CanonParts;
    var entries := EntriesSent(pf, wire, opts, fields, cells);
    if opts.canonical.Some? {
      PartsDistinct(pf, fields, cells, opts.canonical.value);
      SameMembers(entries, CanonParts(pf, fields, cells, opts.canonical.value));
    } else {
      forall j | 0 <= j < |entries|
        ensures entries[j].key.Text?
      {
        EntrySent(pf, wire, opts, fields, cells, j);
      }
    }
  }

  lemma KeyedColumn(pf: Platform, wire: Wire, opts: Options, fields: seq<Field>, cells: seq<Cell>, j: nat)
    requires j < |fields| == |cells| && opts.Fit(wire) && DistinctNames(fields)
    ensures FindKey(EntriesSent(pf, wire, opts, fields, cells), fields[j].name)
            == Sent(pf, wire, opts, WriteCell(pf, fields[j].ty, cells[j]))
  {
    hide WriteCell, Lookup, FindKey, Canonicalize, SortEntries, CanonParts;
    var entries := EntriesSent(pf, wire, opts, fields, cells);
    TextEntriesSent(pf, wire, opts, fields, cells);
    FindIsLookup(entries, fields[j].name);
    if opts.canonical.Some? {
      FieldSent(pf, fields, cells, opts.canonical.value, j);
    } else {
      forall i | 0 <= i < |fields|
        ensures entries[i] == Entry(Text(fields[i].name), Sent(pf, wire, opts, WriteCell(pf, fields[i].ty, cells[i])))
      {
        EntrySent(pf, wire, opts, fields, cells, i);
      }
      LookupFirst(fields, entries, j);
    }
  }

  lemma PlacedColumn(pf: Platform, wire: Wire, opts: Options, fields: seq<Field>, cells: seq<Cell>, j: nat)
    requires j < |fields| == |cells| && opts.Fit(wire) && opts.shape == ArrayShape
    ensures var row := RowSent(pf, wire, opts, fields, cells);
            row.Array? && |row.items| == |fields|
            && row.items[j] == Sent(pf, wire, opts, WriteCell(pf, fields[j].ty, cells[j]))
  {
    hide WriteCell, CarryAll;
    if opts.canonical.None? {
      CarryArray(pf, wire.Route(), WriteEach(pf, fields, cells));
      CarryAllAt(pf, wire.Route(), WriteEach(pf, fields, cells), j);
    }
  }

  lemma CarryAllAt(pf: Platform, route: Route, items: seq<Cbor>, j: nat)
    requires j < |items|
    ensures CarryAll(pf, route, items)[j] == Carry(pf, route, items[j])
  {
  }

  /** In either shape, the reader finds each column's own value. */
  lemma ProjectSent(pf: Platform, wire: Wire, opts: Options, fields: seq<Field>, cells: seq<Cell>, j: nat)
    requires j < |fields| == |cells| && opts.Fit(wire) && DistinctNames(fields)
    ensures Usable(opts.shape, RowSent(pf, wire, opts, fields, cells))
    ensures Project(opts.shape, RowSent(pf, wire, opts, fields, cells), j, fields[j].name)
            == Sent(pf, wire, opts, WriteCell(pf, fields[j].ty, cells[j]))
  {
    hide RowSent, FindKey, EntriesSent, Sent, WriteCell;
    if opts.shape == MapShape {
      MapRowSent(pf, wire, opts, fields, cells);
      KeyedColumn(pf, wire, opts, fields, cells, j);
    } else {
      PlacedColumn(pf, wire, opts, fields, cells, j);
    }
  }

  // ---- One row read ----

  /** What arrives of a row: the row, kept, or a refusal when MessagePack cannot carry one of its decimals. */
  ghost function Arrival(pf: Platform, route: Route, schema: seq<Field>, cells: seq<Cell>): Outcome<seq<Cell>>
    requires |schema| == |cells|
  {
    if UncarriedParts(route, schema, cells) then Refused else Ok(KeptParts(pf, schema, cells))
  }

  /** The row got is the one expected; after canonical ordering, up to the order of MAP entries. */
  ghost predicate Matches(opts: Options, expected: Outcome<seq<Cell>>, got: Outcome<seq<Cell>>) {
    if opts.canonical.None? then got == expected
    else expected.Ok? && got.Ok? && SameCells(expected.value, got.value)
  }

  lemma RowArrives(pf: Platform, wire: Wire, opts: Options, schema: seq<Field>, cells: seq<Cell>)
    requires |schema| == |cells| && HaveTypes(schema, cells) && WellFormedAll(schema) && DistinctNames(schema)
    requires opts.Fit(wire)
    ensures Matches(opts, Arrival(pf, wire.Route(), schema, cells),
                    ReadRow(pf, schema, opts.shape, RowSent(pf, wire, opts, schema, cells)))
  {
    hide ReadCell, ReadRow, Project, RowSent, WriteCell, Carry, Canonicalize, Kept, KeptParts, Uncarried, HaveTypes,
      WellFormedAll, DistinctNames, SameCell;
    var row := RowSent(pf, wire, opts, schema, cells);
    forall j | 0 <= j < |schema|
      ensures CellArrives(pf, wire, opts, schema[j].ty, cells[j])
      ensures Project(opts.shape, row, j, schema[j].name) == Sent(pf, wire, opts, WriteCell(pf, schema[j].ty, cells[j]))
    {
      HaveTypesAt(schema, cells, j);
      CellArriving(pf, wire, opts, schema[j].ty, cells[j]);
      ProjectSent(pf, wire, opts, schema, cells, j);
    }
    ReadRowCells(pf, schema, opts.shape, row);
    CellsMatch(pf, wire, opts, schema, cells, ReadRow(pf, schema, opts.shape, row));
  }

  /** One cell as it arrives. */
  ghost predicate CellArrives(pf: Platform, wire: Wire, opts: Options, ty: Type, c: Cell) {
    var got := ReadCell(pf, ty, Sent(pf, wire, opts, WriteCell(pf, ty, c)));
    if opts.canonical.None? then got == Expected(pf, wire.Route(), ty, c)
    else got.Ok? && SameCell(Kept(pf, ty, c), got.value) && wire.Route() == Direct
  }

  lemma CellArriving(pf: Platform, wire: Wire, opts: Options, ty: Type, c: Cell)
    requires HasType(ty, c) && WellFormed(ty) && opts.Fit(wire)
    ensures CellArrives(pf, wire, opts, ty, c)
  {
    hide ReadCell, WriteCell, Canonicalize, Kept, HasType, WellFormed;
    if opts.canonical.None? {
      CellRoundTrip(pf, wire.Route(), ty, c);
    } else {
      CanonicalRoundTrip(pf, ty, c, opts.canonical.value);
    }
  }

  lemma {:induction false} NothingUncarried(ty: Type, c: Cell)
    ensures !Uncarried(Direct, ty, c)
    decreases ty, 0
  {
    if c.ListCell? && (ty.ListType? || ty.FixedListType?) {
      forall x | x in c.items
        ensures !Uncarried(Direct, ty.child, x)
      {
        NothingUncarried(ty.child, x);
      }
    } else if c.StructCell? && ty.StructType? {
      forall j | 0 <= j < |ty.fields| && j < |c.parts|
        ensures !Uncarried(Direct, ty.fields[j].ty, c.parts[j])
      {
        assert ty.fields[j] in ty.fields && ty.fields[j].ty < ty.fields[j];
        NothingUncarried(ty.fields[j].ty, c.parts[j]);
      }
    } else if c.MapCell? && ty.MapType? {
      forall p | p in c.pairs
        ensures !Uncarried(Direct, ty.key, p.key) && !Uncarried(Direct, ty.val, p.val)
      {
        NothingUncarried(ty.key, p.key);
        NothingUncarried(ty.val, p.val);
      }
    }
  }

  /** A row whose cells arrive one by one arrives. */
  lemma CellsMatch(pf: Platform, wire: Wire, opts: Options, schema: seq<Field>, cells: seq<Cell>,
                   got: Outcome<seq<Cell>>)
    requires |schema| == |cells|
    requires forall j | 0 <= j < |schema| :: CellArrives(pf, wire, opts, schema[j].ty, cells[j])
    requires got.Ok? <==> forall j | 0 <= j < |schema| ::
               ReadCell(pf, schema[j].ty, Sent(pf, wire, opts, WriteCell(pf, schema[j].ty, cells[j]))).Ok?
    requires got.Ok? ==> |got.value| == |schema| && forall j | 0 <= j < |schema| ::
               got.value[j]
               == ReadCell(pf, schema[j].ty, Sent(pf, wire, opts, WriteCell(pf, schema[j].ty, cells[j]))).value
    ensures Matches(opts, Arrival(pf, wire.Route(), schema, cells), got)
  {
    hide ReadCell, WriteCell, Sent, Kept, KeptParts, Uncarried, SameCell;
    if opts.canonical.Some? {
      forall j | 0 <= j < |schema|
        ensures !Uncarried(wire.Route(), schema[j].ty, cells[j])
      {
        assert CellArrives(pf, wire, opts, schema[j].ty, cells[j]);
        NothingUncarried(schema[j].ty, cells[j]);
      }
    } else if j :| 0 <= j < |schema| && Uncarried(wire.Route(), schema[j].ty, cells[j]) {
      assert CellArrives(pf, wire, opts, schema[j].ty, cells[j]);
    } else {
      assert got.value == KeptParts(pf, schema, cells);
    }
  }

  // ---- A whole table ----

  /** The row belongs to the table, and the file format can write it. */
  ghost predicate Sendable(pf: Platform, wire: Wire, opts: Options, schema: seq<Field>, row: seq<Cell>) {
    |row| == |schema| && HaveTypes(schema, row) && wire.Writes(pf, opts.Framed(RowValue(pf, opts.shape, schema, row)))
  }

  /** The row can be read again: it is not nested too deep. */
  ghost predicate Shallow(job: Job, opts: Options, row: seq<Cell>) {
    |row| == |job.schema| && job.wire.Reads(opts.Framed(RowValue(job.pf, opts.shape, job.schema, row)))
  }

  /** How many rows come before the first that is nested too deep. */
  ghost function Reach(job: Job, opts: Options, rows: seq<seq<Cell>>): (n: nat)
    ensures n <= |rows|
    ensures forall i | 0 <= i < n :: Shallow(job, opts, rows[i])
    ensures n < |rows| ==> !Shallow(job, opts, rows[n])
  {
    if |rows| == 0 || !Shallow(job, opts, rows[0]) then 0 else 1 + Reach(job, opts, rows[1..])
  }

  /** The reader's options fit the writer's, and the table can be sent. */
  ghost predicate Matched(job: Job, opts: Options, rows: seq<seq<Cell>>) {
    && job.Valid() && opts.Fit(job.wire) && opts.shape == job.shape
    && DistinctNames(job.schema) && WellFormedAll(job.schema)
    && forall row | row in rows :: Sendable(job.pf, job.wire, opts, job.schema, row)
  }

  ghost function File(job: Job, opts: Options, rows: seq<seq<Cell>>): Bytes
    requires Matched(job, opts, rows)
  {
    assert forall row | row in rows :: Sendable(job.pf, job.wire, opts, job.schema, row);
    Concat(Chunks(job.pf, job.wire, opts, job.schema, rows))
  }

  ghost function ItemsSent(job: Job, opts: Options, rows: seq<seq<Cell>>): (r: seq<Cbor>)
    requires Matched(job, opts, rows)
    ensures |r| == |rows|
  {
    seq(|rows|, i requires 0 <= i < |rows| =>
      assert Sendable(job.pf, job.wire, opts, job.schema, rows[i]);
      RowSent(job.pf, job.wire, opts, job.schema, rows[i]))
  }

  lemma RowDecodes(job: Job, opts: Options, row: seq<Cell>)
    requires job.Valid() && Sendable(job.pf, job.wire, opts, job.schema, row) && Shallow(job, opts, row)
    ensures job.Decoder()(RowBytes(job.pf, job.wire, opts, job.schema, row))
            == Got(RowSent(job.pf, job.wire, opts, job.schema, row), [])
  {
    ItemOfRow(job.wire, job.pf, opts.Framed(RowValue(job.pf, opts.shape, job.schema, row)));
  }

  lemma RowStops(job: Job, opts: Options, row: seq<Cell>)
    requires job.Valid() && Sendable(job.pf, job.wire, opts, job.schema, row) && !Shallow(job, opts, row)
    ensures job.Decoder()(RowBytes(job.pf, job.wire, opts, job.schema, row)) == Failed(NestingLimit)
  {
    hide Addressable, Depth, RowValue, HaveTypes;
    var v := opts.Framed(RowValue(job.pf, opts.shape, job.schema, row));
    DeepRowUnreadable(job.pf, v, []);
    var bytes := job.wire.EncodeRow(job.pf, v);
    assert bytes + [] == bytes;
  }

  /** The rows within reach decode one by one, and the next one is refused. */
  lemma RowsDecode(job: Job, opts: Options, rows: seq<seq<Cell>>)
    requires Matched(job, opts, rows)
    ensures forall row | row in rows :: |row| == |job.schema|
    ensures var n, chunks := Reach(job, opts, rows), Chunks(job.pf, job.wire, opts, job.schema, rows);
            && EncodesEach(job.Decoder(), ItemsSent(job, opts, rows)[..n], chunks[..n])
            && (n < |rows| ==> job.Decoder()(chunks[n]) == Failed(NestingLimit))
  {
    hide RowSent, RowBytes, HaveTypes, WellFormedAll, Shallow, Wire.Writes, Wire.EncodeRow, Wire.Item, SelfDelimiting,
      Reach;
    var n := Reach(job, opts, rows);
    forall i | 0 <= i < |rows|
      ensures Sendable(job.pf, job.wire, opts, job.schema, rows[i])
    {
    }
    forall i | 0 <= i < n
      ensures job.Decoder()(RowBytes(job.pf, job.wire, opts, job.schema, rows[i]))
              == Got(RowSent(job.pf, job.wire, opts, job.schema, rows[i]), [])
    {
      RowDecodes(job, opts, rows[i]);
    }
    if n < |rows| {
      RowStops(job, opts, rows[n]);
    }
  }

  // ---- What the reader meets ----

  lemma OnlyIfValid(job: Job, opts: Options, rows: seq<seq<Cell>>)
    requires Matched(job, opts, rows)
    ensures job.Valid() && forall row | row in rows :: |row| == |job.schema|
  {
    hide RowValue, HaveTypes, WellFormedAll, Wire.Writes, Job.Valid, Wire.EncodeRow;
    forall row | row in rows
      ensures |row| == |job.schema|
    {
      assert Sendable(job.pf, job.wire, opts, job.schema, row);
    }
  }

  lemma FileIsChunks(job: Job, opts: Options, rows: seq<seq<Cell>>)
    requires Matched(job, opts, rows)
    ensures forall row | row in rows :: |row| == |job.schema|
    ensures File(job, opts, rows) == Concat(Chunks(job.pf, job.wire, opts, job.schema, rows))
  {
    OnlyIfValid(job, opts, rows);
  }

  lemma FrontMatched(job: Job, opts: Options, rows: seq<seq<Cell>>, n: nat)
    requires Matched(job, opts, rows) && n <= |rows|
    ensures Matched(job, opts, rows[..n])
    ensures ItemsSent(job, opts, rows[..n]) == ItemsSent(job, opts, rows)[..n]
    ensures n <= Reach(job, opts, rows) ==> Reach(job, opts, rows[..n]) == n
  {
    hide Sendable, RowSent, Job.Valid, WellFormedAll, DistinctNames, Reach, Shallow;
    assert forall row | row in rows[..n] :: row in rows;
  }

  /** How many rows come before the first that is nested too deep, and lie wholly within the first `k` bytes of their
      file. */
  ghost function RowsBefore(job: Job, opts: Options, rows: seq<seq<Cell>>, k: nat): (n: nat)
    requires Matched(job, opts, rows)
    ensures n <= Reach(job, opts, rows)
  {
    OnlyIfValid(job, opts, rows);
    WholeChunks(Chunks(job.pf, job.wire, opts, job.schema, rows)[..Reach(job, opts, rows)], k)
  }

  lemma FrontFile(job: Job, opts: Options, rows: seq<seq<Cell>>, n: nat)
    requires Matched(job, opts, rows) && n <= |rows| && Matched(job, opts, rows[..n])
    ensures forall row | row in rows :: |row| == |job.schema|
    ensures var chunks := Chunks(job.pf, job.wire, opts, job.schema, rows);
            && File(job, opts, rows[..n]) == Concat(chunks[..n])
            && File(job, opts, rows) == Concat(chunks[..n]) + Concat(chunks[n..])
  {
    hide Matched, RowBytes, File;
    FileIsChunks(job, opts, rows);
    FileIsChunks(job, opts, rows[..n]);
    var chunks := Chunks(job.pf, job.wire, opts, job.schema, rows);
    assert Chunks(job.pf, job.wire, opts, job.schema, rows[..n]) == chunks[..n];
    ConcatSplit(chunks, n);
  }

  /** The number is the largest whose rows fit. */
  lemma RowsBeforeIsLargest(job: Job, opts: Options, rows: seq<seq<Cell>>, k: nat)
    requires Matched(job, opts, rows)
    ensures var n := RowsBefore(job, opts, rows, k);
            && Matched(job, opts, rows[..n]) && |File(job, opts, rows[..n])| <= k
            && (n < Reach(job, opts, rows) ==>
                  Matched(job, opts, rows[..n + 1]) && k < |File(job, opts, rows[..n + 1])|)
  {
    hide Matched, Chunks, File, Reach, Concat, WholeChunks, ItemsSent, Shallow;
    var n, reach := RowsBefore(job, opts, rows, k), Reach(job, opts, rows);
    FrontMatched(job, opts, rows, n);
    FrontFile(job, opts, rows, n);
    WholeFront(Chunks(job.pf, job.wire, opts, job.schema, rows), reach, k);
    if n < reach {
      FrontMatched(job, opts, rows, n + 1);
      FrontFile(job, opts, rows, n + 1);
    }
  }

  /** All of the file: the rows within reach, and nothing behind them exactly when that is all of them. */
  lemma RowsInFile(job: Job, opts: Options, rows: seq<seq<Cell>>)
    requires Matched(job, opts, rows)
    ensures var n, whole := Reach(job, opts, rows), File(job, opts, rows);
            && RowsBefore(job, opts, rows, |whole|) == n
            && Matched(job, opts, rows[..n])
            && (|File(job, opts, rows[..n])| == |whole| <==> n == |rows|)
  {
    hide Matched, RowBytes, File, Reach, RowsBefore, EncodesEach;
    var n, whole := Reach(job, opts, rows), File(job, opts, rows);
    RowsBeforeIsLargest(job, opts, rows, |whole|);
    var m := RowsBefore(job, opts, rows, |whole|);
    if m < n {
      FrontFile(job, opts, rows, m + 1);
    }
    FrontFile(job, opts, rows, n);
    OnlyIfValid(job, opts, rows);
    if n == |rows| {
      assert rows[..n] == rows;
    } else {
      RowsDecode(job, opts, rows);
      Decodable(job);
      var chunks := Chunks(job.pf, job.wire, opts, job.schema, rows);
      assert chunks[n] != [];
      assert chunks[n..][0] == chunks[n];
    }
  }

  /** The cut file, and more sources behind it: the items of the rows before the cut and within reach; then the other
      sources when that is all there is before the cut, and otherwise a malformed item, which drops them. */
  lemma CutFlows(job: Job, opts: Options, rows: seq<seq<Cell>>, k: nat, feeds: seq<Feed>)
    requires Matched(job, opts, rows) && k <= |File(job, opts, rows)|
    ensures var n := RowsBefore(job, opts, rows, k);
            && Matched(job, opts, rows[..n])
            && var items, more := ItemsSent(job, opts, rows[..n]), FlowOf(job, feeds);
               FlowOf(job, [Feed(File(job, opts, rows)[..k])] + feeds)
               == if |File(job, opts, rows[..n])| == k then Stretch(items + more.items, more.end)
                  else Stretch(items, Malformed)
  {
    hide RowBytes, Matched, File, ItemsSent, Reach, Wire.Item, SelfDelimiting, Concat, EncodesEach, Flow, Items,
      WholeChunks, Shallow;
    OnlyIfValid(job, opts, rows);
    FileIsChunks(job, opts, rows);
    RowsDecode(job, opts, rows);
    Decodable(job);
    var n, chunks := RowsBefore(job, opts, rows, k), Chunks(job.pf, job.wire, opts, job.schema, rows);
    FrontMatched(job, opts, rows, n);
    FrontFile(job, opts, rows, n);
    var items, reach := ItemsSent(job, opts, rows), Reach(job, opts, rows);
    StoppedSequence(job.Decoder(), items[..reach], chunks, reach, k);
    assert items[..reach][..n] == items[..n];
    FlowFirst(job.Decoder(), Concat(chunks)[..k], feeds);
  }

  // ---- Runs over the file ----

  lemma {:induction false} AllUsable(shape: RowShape, items: seq<Cbor>)
    requires forall item | item in items :: Usable(shape, item)
    ensures UsableOf(shape, items) == items
  {
    if |items| > 0 {
      AllUsable(shape, items[1..]);
      assert items == [items[0]] + items[1..];
    }
  }

  lemma ItemArrives(job: Job, opts: Options, rows: seq<seq<Cell>>, i: nat)
    requires Matched(job, opts, rows) && i < |rows|
    ensures |rows[i]| == |job.schema|
    ensures Usable(job.shape, ItemsSent(job, opts, rows)[i])
    ensures Matches(opts, Arrival(job.pf, job.wire.Route(), job.schema, rows[i]),
                    ReadRow(job.pf, job.schema, job.shape, ItemsSent(job, opts, rows)[i]))
  {
    hide RowSent, ReadRow, Arrival, Matches, HaveTypes, WellFormedAll, DistinctNames, Usable, Wire.Writes,
      SelfDelimiting;
    assert Sendable(job.pf, job.wire, opts, job.schema, rows[i]);
    RowArrives(job.pf, job.wire, opts, job.schema, rows[i]);
    ProjectSent(job.pf, job.wire, opts, job.schema, rows[i], 0);
  }

  /** Runs over sources with the same flow are the same. */
  lemma SameFlow(job: Job, a: seq<Feed>, b: seq<Feed>)
    requires job.Valid() && FlowOf(job, a) == FlowOf(job, b)
    ensures RunOf(job, a) == RunOf(job, b)
  {
    hide FlowOf, RunOf, KeptRows, UsableOf, Job.Valid, Strict;
    if job.ignoreErrors {
      IgnoringRun(job, a);
      IgnoringRun(job, b);
    } else {
      StrictRun(job, a);
      StrictRun(job, b);
    }
  }

  lemma RunOfItems(job: Job, feeds: seq<Feed>, items: seq<Cbor>, end: End)
    requires job.Valid() && FlowOf(job, feeds) == Stretch(items, end) && (end == Clean || end == Malformed)
    requires forall item | item in items :: Usable(job.shape, item)
    ensures RunOf(job, feeds) == if job.ignoreErrors then Ok(KeptRows(job, items))
                                 else if end == Clean then Read(job, items) else Refused
  {
    hide FlowOf, RunOf, KeptRows, Read, UsableOf, Job.Valid;
    if job.ignoreErrors {
      IgnoringRun(job, feeds);
      AllUsable(job.shape, items);
    } else {
      StrictRun(job, feeds);
    }
  }

  lemma CutFileRun(job: Job, opts: Options, rows: seq<seq<Cell>>, k: nat)
    requires Matched(job, opts, rows) && k <= |File(job, opts, rows)|
    ensures var n := RowsBefore(job, opts, rows, k);
            && Matched(job, opts, rows[..n])
            && var items := ItemsSent(job, opts, rows[..n]);
               RunOf(job, [Feed(File(job, opts, rows)[..k])])
               == if job.ignoreErrors then Ok(KeptRows(job, items))
                  else if |File(job, opts, rows[..n])| == k then Read(job, items) else Refused
  {
    hide FlowOf, RunOf, KeptRows, Read, Usable, Matched, File, ItemsSent, RowsBefore;
    OnlyIfValid(job, opts, rows);
    CutFlows(job, opts, rows, k, []);
    NothingFlows(job);
    var n, cut := RowsBefore(job, opts, rows, k), [Feed(File(job, opts, rows)[..k])];
    assert cut + [] == cut;
    var items := ItemsSent(job, opts, rows[..n]);
    assert items + [] == items;
    forall i | 0 <= i < |items|
      ensures Usable(job.shape, items[i])
    {
      ItemArrives(job, opts, rows[..n], i);
    }
    RunOfItems(job, cut, items, FlowOf(job, cut).end);
  }

  lemma FileRun(job: Job, opts: Options, rows: seq<seq<Cell>>)
    requires Matched(job, opts, rows)
    ensures var n := Reach(job, opts, rows);
            && Matched(job, opts, rows[..n])
            && var items := ItemsSent(job, opts, rows[..n]);
               RunOf(job, [Feed(File(job, opts, rows))])
               == if job.ignoreErrors then Ok(KeptRows(job, items))
                  else if n == |rows| then Read(job, items) else Refused
  {
    hide RunOf, KeptRows, Read, Matched, File, ItemsSent, RowsBefore, Reach;
    var whole := File(job, opts, rows);
    assert whole[..|whole|] == whole;
    RowsInFile(job, opts, rows);
    CutFileRun(job, opts, rows, |whole|);
  }

  /** A malformed file drops the sources behind it. */
  lemma MalformedDrops(job: Job, opts: Options, rows: seq<seq<Cell>>, k: nat, feeds: seq<Feed>)
    requires Matched(job, opts, rows) && k <= |File(job, opts, rows)|
    requires var n := RowsBefore(job, opts, rows, k);
             Matched(job, opts, rows[..n]) && |File(job, opts, rows[..n])| != k
    ensures RunOf(job, [Feed(File(job, opts, rows)[..k])] + feeds) == RunOf(job, [Feed(File(job, opts, rows)[..k])])
  {
    hide RunOf, FlowOf, Matched, File, ItemsSent, RowsBefore;
    OnlyIfValid(job, opts, rows);
    var cut := [Feed(File(job, opts, rows)[..k])];
    CutFlows(job, opts, rows, k, feeds);
    CutFlows(job, opts, rows, k, []);
    assert cut + [] == cut;
    SameFlow(job, cut + feeds, cut);
  }

  /** A file cut at any byte, with any sources behind it, in either format and row shape, canonical or not. When the cut
      is between two rows, and none before it is nested too deep, the run goes on behind them. Otherwise it is refused
      or, with errors ignored, loads what the file of the rows before the cut and before the deep row loads, and nothing
      of the other sources. */
  lemma CutRun(job: Job, opts: Options, rows: seq<seq<Cell>>, k: nat, feeds: seq<Feed>)
    requires Matched(job, opts, rows) && k <= |File(job, opts, rows)|
    ensures var n := RowsBefore(job, opts, rows, k);
            && Matched(job, opts, rows[..n])
            && RunOf(job, [Feed(File(job, opts, rows)[..k])] + feeds)
               == if |File(job, opts, rows[..n])| == k then RunOf(job, [Feed(File(job, opts, rows[..n]))] + feeds)
                  else if job.ignoreErrors then RunOf(job, [Feed(File(job, opts, rows[..n]))]) else Refused
  {
    hide RunOf, KeptRows, Read, Matched, File, ItemsSent, RowsBefore, Reach;
    OnlyIfValid(job, opts, rows);
    var n := RowsBefore(job, opts, rows, k);
    FrontMatched(job, opts, rows, n);
    FrontFile(job, opts, rows, n);
    RowsBeforeIsLargest(job, opts, rows, k);
    var front := File(job, opts, rows[..n]);
    assert File(job, opts, rows)[..|front|] == front;
    if |front| != k {
      MalformedDrops(job, opts, rows, k, feeds);
      CutFileRun(job, opts, rows, k);
      FileRun(job, opts, rows[..n]);
      assert rows[..n][..n] == rows[..n];
    }
  }

  /** A row nested too deep ends a run: without `ignore_errors` it is refused; with it, the rows before the deep one are
      loaded, and everything behind it is lost, the rows of this file and all later sources. */
  lemma DeepRowEndsRun(job: Job, opts: Options, rows: seq<seq<Cell>>, feeds: seq<Feed>)
    requires Matched(job, opts, rows) && Reach(job, opts, rows) < |rows|
    ensures var n := Reach(job, opts, rows);
            && Matched(job, opts, rows[..n])
            && RunOf(job, [Feed(File(job, opts, rows))] + feeds)
               == if job.ignoreErrors then RunOf(job, [Feed(File(job, opts, rows[..n]))]) else Refused
  {
    hide RunOf, Matched, File, RowsBefore, Reach;
    var whole := File(job, opts, rows);
    assert whole[..|whole|] == whole;
    RowsInFile(job, opts, rows);
    CutRun(job, opts, rows, |whole|, feeds);
  }

  // ---- What comes back ----

  /** The rows that arrive. */
  ghost function Arrivals(pf: Platform, route: Route, schema: seq<Field>, rows: seq<seq<Cell>>): seq<seq<Cell>>
    requires forall row | row in rows :: |row| == |schema|
  {
    if |rows| == 0 then [] else
      assert rows[0] in rows;
      var first := Arrival(pf, route, schema, rows[0]);
      (if first.Ok? then [first.value] else []) + Arrivals(pf, route, schema, rows[1..])
  }

  lemma {:induction false} KeptArrivals(job: Job, route: Route, rows: seq<seq<Cell>>, items: seq<Cbor>)
    requires |items| == |rows| && forall row | row in rows :: |row| == |job.schema|
    requires forall i | 0 <= i < |rows| ::
               ReadRow(job.pf, job.schema, job.shape, items[i]) == Arrival(job.pf, route, job.schema, rows[i])
    ensures KeptRows(job, items) == Arrivals(job.pf, route, job.schema, rows)
  {
    hide ReadRow, Arrival;
    if |rows| > 0 {
      KeptArrivals(job, route, rows[1..], items[1..]);
    }
  }

  lemma ReadArrivals(job: Job, route: Route, rows: seq<seq<Cell>>, items: seq<Cbor>)
    requires |items| == |rows| && forall row | row in rows :: |row| == |job.schema|
    requires forall i | 0 <= i < |rows| ::
               ReadRow(job.pf, job.schema, job.shape, items[i]) == Arrival(job.pf, route, job.schema, rows[i])
    ensures Read(job, items) == if forall row | row in rows :: Arrival(job.pf, route, job.schema, row).Ok?
                                then Ok(Arrivals(job.pf, route, job.schema, rows)) else Refused
  {
    hide ReadRow, ReadRows, Arrival, Arrivals, KeptRows;
    KeptTogether(job, items);
    KeptArrivals(job, route, rows, items);
    if row :| row in rows && Arrival(job.pf, route, job.schema, row).Refused? {
      var i :| 0 <= i < |rows| && rows[i] == row;
      assert ReadRow(job.pf, job.schema, job.shape, items[i]).Refused?;
    }
  }

  /** COPY TO, then COPY FROM, without canonical ordering: for every table that can be written, in either row shape and
      either format, the rows come back in order, as a round trip keeps them. A row with a decimal that MessagePack
      cannot carry is refused, never changed: it fails the run, or is left out when errors are ignored. A row nested too
      deep for the reader fails the run, or ends it when errors are ignored. */
  lemma CopyBack(job: Job, opts: Options, rows: seq<seq<Cell>>)
    requires Matched(job, opts, rows) && opts.canonical.None?
    ensures forall row | row in rows :: |row| == |job.schema|
    ensures var n := Reach(job, opts, rows);
            RunOf(job, [Feed(File(job, opts, rows))])
            == if job.ignoreErrors
                  || (n == |rows| && forall row | row in rows :: Arrival(job.pf, job.wire.Route(), job.schema, row).Ok?)
               then Ok(Arrivals(job.pf, job.wire.Route(), job.schema, rows[..n])) else Refused
  {
    hide RunOf, KeptRows, Read, Matched, File, ItemsSent, Arrival, Arrivals, ReadRow, Usable, Reach;
    OnlyIfValid(job, opts, rows);
    FileRun(job, opts, rows);
    var n := Reach(job, opts, rows);
    var front := rows[..n];
    assert n == |rows| ==> front == rows;
    var items := ItemsSent(job, opts, front);
    forall i | 0 <= i < n
      ensures ReadRow(job.pf, job.schema, job.shape, items[i])
              == Arrival(job.pf, job.wire.Route(), job.schema, front[i])
    {
      ItemArrives(job, opts, front, i);
    }
    KeptArrivals(job, job.wire.Route(), front, items);
    ReadArrivals(job, job.wire.Route(), front, items);
  }

  /** With a canonical order, every row comes back in its place, and only the entries of MAP cells may be reordered; a
      row nested too deep fails or ends the run. */
  lemma CanonicalCopyBack(job: Job, opts: Options, rows: seq<seq<Cell>>)
    requires Matched(job, opts, rows) && opts.canonical.Some?
    ensures forall row | row in rows :: |row| == |job.schema|
    ensures var n, run := Reach(job, opts, rows), RunOf(job, [Feed(File(job, opts, rows))]);
            && (run.Ok? <==> job.ignoreErrors || n == |rows|)
            && (run.Ok? ==> |run.value| == n && forall i | 0 <= i < n ::
                              SameCells(KeptParts(job.pf, job.schema, rows[i]), run.value[i]))
  {
    hide RunOf, KeptRows, Matched, File, ItemsSent, ReadRow, ReadRows, Usable, SameCells, KeptParts, UncarriedParts,
      Reach;
    OnlyIfValid(job, opts, rows);
    FileRun(job, opts, rows);
    var n := Reach(job, opts, rows);
    var front := rows[..n];
    var items := ItemsSent(job, opts, front);
    forall i | 0 <= i < n
      ensures var row := ReadRow(job.pf, job.schema, job.shape, items[i]);
              row.Ok? && SameCells(KeptParts(job.pf, job.schema, front[i]), row.value)
    {
      ItemArrives(job, opts, front, i);
    }
    KeptTogether(job, items);
  }

  /** So a table written without canonical order and cut at any byte gives, with errors ignored, the arrivals of exactly
      the rows wholly before the cut (and before a row nested too deep); otherwise it is refused exactly when those are
      not all there is before the cut, or one of them cannot be carried. */
  lemma CutCopyBack(job: Job, opts: Options, rows: seq<seq<Cell>>, k: nat)
    requires Matched(job, opts, rows) && opts.canonical.None? && k <= |File(job, opts, rows)|
    ensures var n := RowsBefore(job, opts, rows, k);
            && Matched(job, opts, rows[..n])
            && (forall row | row in rows[..n] :: |row| == |job.schema|)
            && RunOf(job, [Feed(File(job, opts, rows)[..k])])
               == if job.ignoreErrors
                     || (|File(job, opts, rows[..n])| == k
                         && forall row | row in rows[..n] ::
                              Arrival(job.pf, job.wire.Route(), job.schema, row).Ok?)
                  then Ok(Arrivals(job.pf, job.wire.Route(), job.schema, rows[..n])) else Refused
  {
    hide RunOf, Matched, File, Arrival, Arrivals, RowsBefore, Reach;
    var n, cut := RowsBefore(job, opts, rows, k), [Feed(File(job, opts, rows)[..k])];
    CutRun(job, opts, rows, k, []);
    FrontMatched(job, opts, rows, n);
    assert cut + [] == cut && [Feed(File(job, opts, rows[..n]))] + [] == [Feed(File(job, opts, rows[..n]))];
    CopyBack(job, opts, rows[..n]);
    assert rows[..n][..n] == rows[..n];
  }

  // ---- What is lost ----

  /** The cell survives a round trip: its TIME_NS are whole microseconds, and its singles survive widening. */
  predicate Intact(pf: Platform, ty: Type, c: Cell)
    decreases ty, 0
  {
    match c
    case NumCell(n) => ty == TimeType(Nanosecond) ==> n % 1_000 == 0
    case SingleCell(x) => pf.narrow(pf.widen(x)) == x
    case ListCell(items) => ty.ListType? || ty.FixedListType? ==> forall x | x in items :: Intact(pf, ty.child, x)
    case StructCell(parts) => ty.StructType? && |ty.fields| == |parts| ==> IntactParts(pf, ty.fields, parts)
    case MapCell(pairs) =>
      ty.MapType? ==> forall p | p in pairs :: Intact(pf, ty.key, p.key) && Intact(pf, ty.val, p.val)
    case _ => true
  }

  predicate IntactParts(pf: Platform, fields: seq<Field>, parts: seq<Cell>)
    requires |fields| == |parts|
    decreases fields, 0
  {
    |fields| > 0 ==>
      assert fields[0].ty < fields[0];
      Intact(pf, fields[0].ty, parts[0]) && IntactParts(pf, fields[1..], parts[1..])
  }

  /** A round trip keeps a cell as it was exactly when it is intact. */
  lemma {:induction false} KeptIff(pf: Platform, ty: Type, c: Cell)
    ensures Kept(pf, ty, c) == c <==> Intact(pf, ty, c)
    decreases ty, 1
  {
    if c.ListCell? && (ty.ListType? || ty.FixedListType?) {
      KeptItemsIff(pf, ty.child, c.items);
    } else if c.StructCell? && ty.StructType? && |ty.fields| == |c.parts| {
      KeptPartsIff(pf, ty.fields, c.parts);
    } else if c.MapCell? && ty.MapType? {
      KeptPairsIff(pf, ty, c.pairs);
    }
  }

  lemma {:induction false} KeptItemsIff(pf: Platform, ty: Type, items: seq<Cell>)
    ensures KeptAll(pf, ty, items) == items <==> forall x | x in items :: Intact(pf, ty, x)
    decreases ty, 2, |items|
  {
    hide Kept, Intact;
    if |items| > 0 {
      var x, rest := items[0], items[1..];
      KeptIff(pf, ty, x);
      KeptItemsIff(pf, ty, rest);
      SameFirst(Kept(pf, ty, x), KeptAll(pf, ty, rest), items);
      assert items == [x] + rest;
    }
  }

  lemma {:induction false} KeptPartsIff(pf: Platform, fields: seq<Field>, parts: seq<Cell>)
    requires |fields| == |parts|
    ensures KeptParts(pf, fields, parts) == parts <==> IntactParts(pf, fields, parts)
    decreases fields, 0
  {
    hide Kept, Intact;
    if |fields| > 0 {
      assert fields[0].ty < fields[0];
      KeptIff(pf, fields[0].ty, parts[0]);
      KeptPartsIff(pf, fields[1..], parts[1..]);
      SameFirst(Kept(pf, fields[0].ty, parts[0]), KeptParts(pf, fields[1..], parts[1..]), parts);
    }
  }

  lemma {:induction false} KeptPairsIff(pf: Platform, ty: Type, pairs: seq<Pair>)
    requires ty.MapType?
    ensures KeptPairs(pf, ty, pairs) == pairs
            <==> forall p | p in pairs :: Intact(pf, ty.key, p.key) && Intact(pf, ty.val, p.val)
    decreases ty, 0, |pairs|
  {
    hide Kept, Intact;
    if |pairs| > 0 {
      var p, rest := pairs[0], pairs[1..];
      KeptIff(pf, ty.key, p.key);
      KeptIff(pf, ty.val, p.val);
      KeptPairsIff(pf, ty, rest);
      SameFirst(Pair(Kept(pf, ty.key, p.key), Kept(pf, ty.val, p.val)), KeptPairs(pf, ty, rest), pairs);
      assert pairs == [p] + rest;
    }
  }

  /** Neither TIME_NS nor FLOAT anywhere in the type. */
  predicate Lossless(ty: Type)
    decreases ty, 0
  {
    match ty
    case Float32Type => false
    case TimeType(unit) => unit != Nanosecond
    case FixedListType(child, _) => Lossless(child)
    case ListType(child) => Lossless(child)
    case StructType(fields) => LosslessAll(fields)
    case MapType(key, val) => Lossless(key) && Lossless(val)
    case _ => true
  }

  predicate LosslessAll(fields: seq<Field>)
    decreases fields, 0
  {
    |fields| > 0 ==>
      assert fields[0].ty < fields[0];
      Lossless(fields[0].ty) && LosslessAll(fields[1..])
  }

  /** Cells of such types are intact on every platform. */
  lemma {:induction false} LosslessIntact(pf: Platform, ty: Type, c: Cell)
    requires Lossless(ty) && HasType(ty, c)
    ensures Intact(pf, ty, c)
    decreases ty, 1
  {
    match c
    case ListCell(items) =>
      forall x | x in items
        ensures Intact(pf, ty.child, x)
      {
        LosslessIntact(pf, ty.child, x);
      }
    case StructCell(parts) => LosslessPartsIntact(pf, ty.fields, parts);
    case MapCell(pairs) =>
      forall p | p in pairs
        ensures Intact(pf, ty.key, p.key) && Intact(pf, ty.val, p.val)
      {
        LosslessIntact(pf, ty.key, p.key);
        LosslessIntact(pf, ty.val, p.val);
      }
    case _ =>
  }

  lemma {:induction false} LosslessPartsIntact(pf: Platform, fields: seq<Field>, parts: seq<Cell>)
    requires LosslessAll(fields) && HaveTypes(fields, parts)
    ensures |fields| == |parts| && IntactParts(pf, fields, parts)
    decreases fields, 0
  {
    if |fields| > 0 {
      assert fields[0].ty < fields[0];
      LosslessIntact(pf, fields[0].ty, parts[0]);
      LosslessPartsIntact(pf, fields[1..], parts[1..]);
    }
  }

  /** The rows of a table as a round trip keeps them. */
  function KeptTable(pf: Platform, schema: seq<Field>, rows: seq<seq<Cell>>): (r: seq<seq<Cell>>)
    requires forall row | row in rows :: |row| == |schema|
    ensures |r| == |rows|
  {
    seq(|rows|, i requires 0 <= i < |rows| => KeptParts(pf, schema, rows[i]))
  }

  /** A table copied without canonical order comes back exactly as it was if and only if no row is nested too deep, all
      cells are intact, and the format carries every decimal. */
  lemma CopyIsIdentity(job: Job, opts: Options, rows: seq<seq<Cell>>)
    requires Matched(job, opts, rows) && opts.canonical.None?
    ensures forall row | row in rows :: |row| == |job.schema|
    ensures RunOf(job, [Feed(File(job, opts, rows))]) == Ok(rows)
            <==> Reach(job, opts, rows) == |rows|
                 && forall row | row in rows ::
                      IntactParts(job.pf, job.schema, row) && !UncarriedParts(job.wire.Route(), job.schema, row)
  {
    hide RunOf, Matched, File, Reach, Arrivals, IntactParts, UncarriedParts, KeptParts;
    OnlyIfValid(job, opts, rows);
    CopyBack(job, opts, rows);
    var n, route := Reach(job, opts, rows), job.wire.Route();
    assert n == |rows| ==> rows[..n] == rows;
    AllCarried(job.pf, route, job.schema, rows[..n]);
    if n == |rows| && forall row | row in rows :: !UncarriedParts(route, job.schema, row) {
      AllArrive(job.pf, route, job.schema, rows);
      KeptTableIff(job.pf, job.schema, rows);
    }
  }

  /** No more rows arrive than were sent, and as many only if all are carried. */
  lemma {:induction false} AllCarried(pf: Platform, route: Route, schema: seq<Field>, rows: seq<seq<Cell>>)
    requires forall row | row in rows :: |row| == |schema|
    ensures |Arrivals(pf, route, schema, rows)| <= |rows|
    ensures |Arrivals(pf, route, schema, rows)| == |rows| <==>
              forall row | row in rows :: !UncarriedParts(route, schema, row)
  {
    hide UncarriedParts, KeptParts;
    if |rows| > 0 {
      var rest := rows[1..];
      AllCarried(pf, route, schema, rest);
      assert rows[0] in rows;
      assert forall row | row in rest :: row in rows;
      assert forall row | row in rows :: row == rows[0] || row in rest;
    }
  }

  /** Through CBOR every row within reach comes back, kept. */
  lemma CborCopyBack(job: Job, opts: Options, rows: seq<seq<Cell>>)
    requires Matched(job, opts, rows) && opts.canonical.None? && job.wire.CborWire?
    ensures forall row | row in rows :: |row| == |job.schema|
    ensures var n := Reach(job, opts, rows);
            RunOf(job, [Feed(File(job, opts, rows))])
            == if job.ignoreErrors || n == |rows| then Ok(KeptTable(job.pf, job.schema, rows[..n])) else Refused
  {
    hide *;
    OnlyIfValid(job, opts, rows);
    CopyBack(job, opts, rows);
    CborArrivals(job, rows);
    CborArrivals(job, rows[..Reach(job, opts, rows)]);
  }

  lemma CborArrivals(job: Job, rows: seq<seq<Cell>>)
    requires job.wire.CborWire? && forall row | row in rows :: |row| == |job.schema|
    ensures forall row | row in rows :: Arrival(job.pf, job.wire.Route(), job.schema, row).Ok?
    ensures Arrivals(job.pf, job.wire.Route(), job.schema, rows) == KeptTable(job.pf, job.schema, rows)
  {
    hide KeptParts, KeptTable, UncarriedParts, Arrivals;
    forall row | row in rows
      ensures Arrival(job.pf, Direct, job.schema, row) == Ok(KeptParts(job.pf, job.schema, row))
    {
      NoneUncarried(job.schema, row);
    }
    AllArrive(job.pf, Direct, job.schema, rows);
  }

  lemma KeptTableFirst(pf: Platform, schema: seq<Field>, rows: seq<seq<Cell>>)
    requires |rows| > 0 && forall row | row in rows :: |row| == |schema|
    ensures forall row | row in rows[1..] :: |row| == |schema|
    ensures KeptTable(pf, schema, rows) == [KeptParts(pf, schema, rows[0])] + KeptTable(pf, schema, rows[1..])
  {
    hide KeptParts;
  }

  lemma {:induction false} KeptTableIff(pf: Platform, schema: seq<Field>, rows: seq<seq<Cell>>)
    requires forall row | row in rows :: |row| == |schema|
    ensures KeptTable(pf, schema, rows) == rows <==> forall row | row in rows :: IntactParts(pf, schema, row)
    decreases |rows|
  {
    hide KeptParts, IntactParts, KeptTable;
    if |rows| > 0 {
      var row, rest := rows[0], rows[1..];
      KeptPartsIff(pf, schema, row);
      KeptTableIff(pf, schema, rest);
      KeptTableFirst(pf, schema, rows);
      SameFirst(KeptParts(pf, schema, row), KeptTable(pf, schema, rest), rows);
      assert rows == [row] + rest;
    }
  }

  lemma NoneUncarried(fields: seq<Field>, parts: seq<Cell>)
    ensures !UncarriedParts(Direct, fields, parts)
  {
    hide Uncarried;
    forall j | 0 <= j < |fields| && j < |parts|
      ensures !Uncarried(Direct, fields[j].ty, parts[j])
    {
      NothingUncarried(fields[j].ty, parts[j]);
    }
  }

  lemma NoRows(pf: Platform, schema: seq<Field>, rows: seq<seq<Cell>>)
    requires |rows| == 0
    ensures KeptTable(pf, schema, rows) == []
  {
  }

  lemma {:induction false} AllArrive(pf: Platform, route: Route, schema: seq<Field>, rows: seq<seq<Cell>>)
    requires forall row | row in rows ::
               |row| == |schema| && Arrival(pf, route, schema, row) == Ok(KeptParts(pf, schema, row))
    ensures Arrivals(pf, route, schema, rows) == KeptTable(pf, schema, rows)
  {
    hide Arrival, KeptParts, KeptTable;
    if |rows| > 0 {
      var rest := rows[1..];
      assert rows[0] in rows && forall row | row in rest :: row in rows;
      AllArrive(pf, route, schema, rest);
      KeptTableFirst(pf, schema, rows);
    } else {
      NoRows(pf, schema, rows);
    }
  }

  // ---- The two programs, one after the other ----

  /** The shard belongs to the table, and the file format can write its rows. */
  ghost predicate ShardFits(job: Job, opts: Options, shard: Shard) {
    && shard.Valid() && shard.fields == job.schema
    && forall row | row in shard.Rows() ::
         |row| == |job.schema| && job.wire.Writes(job.pf, opts.Framed(RowValue(job.pf, opts.shape, job.schema, row)))
  }

  ghost function TableRows(shards: seq<Shard>): seq<seq<Cell>>
    requires forall s | s in shards :: s.Valid()
  {
    if |shards| == 0 then [] else shards[0].Rows() + TableRows(shards[1..])
  }

  lemma ShardSendable(job: Job, opts: Options, shard: Shard)
    requires ShardFits(job, opts, shard)
    ensures forall row | row in shard.Rows() :: Sendable(job.pf, job.wire, opts, job.schema, row)
  {
    hide RowValue, Wire.Writes, LayoutOk, Cells, HaveTypes, ColumnsOf;
    var rows := shard.Rows();
    forall i | 0 <= i < |rows|
      ensures HaveTypes(job.schema, rows[i])
    {
      RowTyped(shard.fields, shard.columns, i);
    }
  }

  /** The file written shard by shard is the file of the table's rows. */
  lemma {:induction false} ShardsAreTable(job: Job, opts: Options, shards: seq<Shard>)
    requires forall s | s in shards :: s.Valid() && ShardFits(job, opts, s)
    ensures forall row | row in TableRows(shards) ::
              |row| == |job.schema| && Sendable(job.pf, job.wire, opts, job.schema, row)
    ensures FileChunks(job.pf, job.wire, opts, shards)
            == Chunks(job.pf, job.wire, opts, job.schema, TableRows(shards))
  {
    hide Sendable, RowBytes, Shard.Rows, Shard.Valid, Chunks, ShardChunks;
    if |shards| == 0 {
      NothingSent(job, opts);
    } else {
      var first, rest := shards[0].Rows(), TableRows(shards[1..]);
      ShardsAreTable(job, opts, shards[1..]);
      ShardSendable(job, opts, shards[0]);
      assert forall row | row in first + rest :: row in first || row in rest;
      SendableWidths(job, opts, first + rest);
      ShardIsRows(job, opts, shards[0]);
      ChunksAppend(job, opts, first, rest);
    }
  }

  lemma NothingSent(job: Job, opts: Options)
    ensures Chunks(job.pf, job.wire, opts, job.schema, []) == []
  {
  }

  lemma ShardIsRows(job: Job, opts: Options, shard: Shard)
    requires shard.Valid() && ShardFits(job, opts, shard)
    ensures forall row | row in shard.Rows() :: |row| == |job.schema|
    ensures ShardChunks(job.pf, job.wire, opts, shard)
            == Chunks(job.pf, job.wire, opts, job.schema, shard.Rows())
  {
    hide Shard.Rows, Shard.Valid, Chunks;
  }

  lemma ChunksAppend(job: Job, opts: Options, a: seq<seq<Cell>>, b: seq<seq<Cell>>)
    requires forall row | row in a + b :: |row| == |job.schema|
    ensures (forall row | row in a :: |row| == |job.schema|) && forall row | row in b :: |row| == |job.schema|
    ensures Chunks(job.pf, job.wire, opts, job.schema, a + b)
            == Chunks(job.pf, job.wire, opts, job.schema, a) + Chunks(job.pf, job.wire, opts, job.schema, b)
  {
    hide RowBytes;
    assert forall row | row in a || row in b :: row in a + b;
  }

  lemma SendableWidths(job: Job, opts: Options, rows: seq<seq<Cell>>)
    requires forall row | row in rows :: Sendable(job.pf, job.wire, opts, job.schema, row)
    ensures forall row | row in rows :: |row| == |job.schema|
  {
    hide HaveTypes, Wire.Writes, RowValue;
    forall row | row in rows
      ensures |row| == |job.schema|
    {
      assert Sendable(job.pf, job.wire, opts, job.schema, row);
    }
  }

  /** The store a written object is read from: it holds those bytes and does not fail. */
  ghost predicate Serves(serve: Bytes -> Store) {
    forall bs :: serve(bs).Valid() && serve(bs).Reliable() && serve(bs).data == bs
  }

  /** COPY TO writes the shards, COPY FROM loads the file: as many rows are reported as the table has, and they come
      back as `CopyBack` and `CanonicalCopyBack` say, for any split into shards, any batch size, any chunk size, any
      buffer capacity, and any prefixes the store serves. */
  method CopyThereAndBack(job: Job, opts: Options, shards: seq<Shard>, serve: Bytes -> Store, chunk: nat, capacity: nat)
    returns (written: nat, ok: bool, batches: seq<(nat, seq<Column>)>)
    requires forall s | s in shards :: s.Valid() && ShardFits(job, opts, s)
    requires Matched(job, opts, TableRows(shards))
    requires Serves(serve) && chunk > 0 && capacity > 0
    ensures written == |TableRows(shards)|
    ensures forall b | b in batches :: BatchOk(job.schema, b.0, b.1)
    ensures var run := RunOf(job, [Feed(File(job, opts, TableRows(shards)))]);
            (ok <==> run.Ok?) && (ok ==> RowsOf(job.schema, batches) == run.value)
    ensures opts.canonical.None? && job.wire.CborWire? ==>
              var rows, n := TableRows(shards), Reach(job, opts, TableRows(shards));
              && (ok <==> job.ignoreErrors || n == |rows|)
              && (forall row | row in rows :: |row| == |job.schema|)
              && (ok ==> RowsOf(job.schema, batches) == KeptTable(job.pf, job.schema, rows[..n]))
  {
    hide RunOf, RowsOf, Concat, Matched, BatchOk, Sendable, Store.Valid, Store.Reliable, Job.Valid,
      WellFormedAll, DistinctNames;
    ShardsAreTable(job, opts, shards);
    var sink: Bytes;
    sink, written := Close(job.pf, job.wire, opts, shards);
    var store := serve(sink);
    ghost var feeds := seq(1, i requires 0 <= i < 1 => FeedOf([Opens(store)][i]));
    assert feeds == [Feed(sink)];
    OnlyIfValid(job, opts, TableRows(shards));
    FileIsChunks(job, opts, TableRows(shards));
    if opts.canonical.None? && job.wire.CborWire? {
      CborCopyBack(job, opts, TableRows(shards));
    }
    ok, batches := RunCopy(job, [Opens(store)], chunk, capacity);
  }
}
