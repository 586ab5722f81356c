/** The CBOR value of a cell, chosen by its column type, and how it is read off a column. */
module ValueIn {
  import opened Base
  import opened Values
  import opened Bignum
  import opened Exact
  import opened Columns

  const EPOCH_TAG: U64 := 1
  const DECIMAL_TAG: U64 := 4
  const EPOCH_DAYS_TAG: U64 := 100

  /** A TIME as microseconds since midnight; nanoseconds below a microsecond are cut. */
  function Micros(unit: TimeUnit, n: int): int {
    match unit
    case Second => n * 1_000_000
    case Millisecond => n * 1_000
    case Microsecond => n
    case Nanosecond => TruncDiv(n, 1_000)
  }

  /** A decimal fraction: mantissa times ten to the exponent. */
  function Fraction(exponent: CborInt, mantissa: I128): Cbor {
    Tag(DECIMAL_TAG, Array([Integer(exponent), ToValue(mantissa)]))
  }

  /** A whole second is an integer; anything finer is a decimal fraction of a second. */
  function WriteTimestamp(unit: TimeUnit, n: I64): Cbor {
    var perSecond := Pow10(Digits(unit));
    QuotientBound(if n >= 0 then n else -(n as int), perSecond);
    Tag(EPOCH_TAG, if n % perSecond == 0 then Integer(TruncDiv(n, perSecond)) else Fraction(0 - Digits(unit), n))
  }

  function WriteNumber(ty: Type, n: int): Cbor
    requires InRange(ty, n)
  {
    match ty
    case IntegerType(_) => Integer(n)
    case DateType => Tag(EPOCH_DAYS_TAG, Integer(n))
    case TimeType(unit) => MicrosFit(unit, n); Integer(Micros(unit, n))
    case TimestampType(unit) => WriteTimestamp(unit, n)
    case DecimalType(scale) => Fraction(-(scale as int), n)
  }

  lemma MicrosFit(unit: TimeUnit, n: int)
    requires InRange(TimeType(unit), n)
    ensures IsI64(Micros(unit, n))
  {
  }

  /** `value_at` of a logical cell. A column never holds a cell of another type; such a cell would be null here. */
  function WriteCell(pf: Platform, ty: Type, c: Cell): Cbor
    decreases ty, 0
  {
    match c
    case NullCell => Null
    case BoolCell(b) => Bool(b)
    case NumCell(n) => if InRange(ty, n) then WriteNumber(ty, n) else Null
    case SingleCell(single) => Float(pf.widen(single))
    case DoubleCell(f) => Float(f)
    case TextCell(s) => Text(s)
    case BytesCell(b) => Blob(b)
    case ListCell(items) => if ty.ListType? || ty.FixedListType? then Array(WriteAll(pf, ty.child, items)) else Null
    case StructCell(parts) =>
      if ty.StructType? && |parts| == |ty.fields| then Map(WriteParts(pf, ty.fields, parts)) else Null
    case MapCell(pairs) => if ty.MapType? then Map(WritePairs(pf, ty, pairs)) else Null
  }

  function WriteAll(pf: Platform, ty: Type, items: seq<Cell>): (r: seq<Cbor>)
    ensures |r| == |items|
    ensures forall i | 0 <= i < |items| :: r[i] == WriteCell(pf, ty, items[i])
    decreases ty, |items|
  {
    if |items| == 0 then [] else [WriteCell(pf, ty, items[0])] + WriteAll(pf, ty, items[1..])
  }

  /** One entry per field, under its name. */
  function WriteParts(pf: Platform, fields: seq<Field>, parts: seq<Cell>): (r: seq<Entry>)
    requires |fields| == |parts|
    ensures |r| == |fields|
    ensures forall i | 0 <= i < |fields| ::
              r[i] == Entry(Text(fields[i].name), WriteCell(pf, fields[i].ty, parts[i]))
    decreases fields, 0
  {
    if |fields| == 0 then [] else
      assert fields[0].ty < fields[0];
      [Entry(Text(fields[0].name), WriteCell(pf, fields[0].ty, parts[0]))] + WriteParts(pf, fields[1..], parts[1..])
  }

  function WritePairs(pf: Platform, ty: Type, pairs: seq<Pair>): (r: seq<Entry>)
    requires ty.MapType?
    ensures |r| == |pairs|
    ensures forall i | 0 <= i < |pairs| ::
              r[i] == Entry(WriteCell(pf, ty.key, pairs[i].key), WriteCell(pf, ty.val, pairs[i].val))
    decreases ty, 0, |pairs|
  {
    if |pairs| == 0 then [] else
      [Entry(WriteCell(pf, ty.key, pairs[0].key), WriteCell(pf, ty.val, pairs[0].val))] + WritePairs(pf, ty, pairs[1..])
  }

  // ---- Columns hold cells of their type ----

  lemma {:induction false} ColumnTyped(ty: Type, col: Column)
    requires ColumnOf(ty, col)
    ensures forall c | c in Cells(col) :: HasType(ty, c)
    decreases ty, 0
  {
    match ty
    case ListType(child) =>
      ColumnTyped(child, col.child);
      ListRowsTyped(ty, col);
    case FixedListType(child, size) =>
      ColumnTyped(child, col.child);
      FixedRowsTyped(ty, col);
    case StructType(fields) => ColumnsTyped(fields, col);
    case MapType(key, val) =>
      ColumnTyped(key, col.keys);
      ColumnTyped(val, col.vals);
      MapRowsTyped(ty, col);
    case _ =>
  }

  lemma ListRowsTyped(ty: Type, col: Column)
    requires ty.ListType? && ColumnOf(ty, col)
    requires forall c | c in Cells(col.child) :: HasType(ty.child, c)
    ensures forall c | c in Cells(col) :: HasType(ty, c)
  {
    assert forall i | 0 <= i < Len(col) :: HasType(ty, Cells(col)[i]);
  }

  lemma FixedRowsTyped(ty: Type, col: Column)
    requires ty.FixedListType? && ColumnOf(ty, col)
    requires forall c | c in Cells(col.child) :: HasType(ty.child, c)
    ensures forall c | c in Cells(col) :: HasType(ty, c)
  {
    forall i | 0 <= i < col.len
      ensures HasType(ty, Cells(col)[i])
    {
      RowWithin(i, col.len, col.size);
    }
  }

  lemma MapRowsTyped(ty: Type, col: Column)
    requires ty.MapType? && ColumnOf(ty, col)
    requires forall c | c in Cells(col.keys) :: HasType(ty.key, c)
    requires forall c | c in Cells(col.vals) :: HasType(ty.val, c)
    ensures forall c | c in Cells(col) :: HasType(ty, c)
  {
    hide HasType;
    forall i | 0 <= i < Len(col)
      ensures HasType(ty, Cells(col)[i])
    {
      if IsValid(col.nulls, i) {
        PairsTyped(ty, Cells(col.keys), Cells(col.vals), col.offsets[i], col.offsets[i + 1]);
      } else {
        NullTyped(ty);
      }
    }
  }

  lemma PairsTyped(ty: Type, keys: seq<Cell>, vals: seq<Cell>, lo: nat, hi: nat)
    requires ty.MapType? && |keys| == |vals| && lo <= hi <= |keys| && NullCell !in keys
    requires forall c | c in keys :: HasType(ty.key, c)
    requires forall c | c in vals :: HasType(ty.val, c)
    ensures HasType(ty, MapCell(Zip(keys[lo..hi], vals[lo..hi])))
  {
    var pairs := Zip(keys[lo..hi], vals[lo..hi]);
    forall p | p in pairs
      ensures HasType(ty.key, p.key) && HasType(ty.val, p.val) && p.key != NullCell
    {
      var j :| 0 <= j < |pairs| && pairs[j] == p;
      assert p == Pair(keys[lo + j], vals[lo + j]);
    }
  }

  lemma ColumnsTyped(fields: seq<Field>, col: Column)
    requires ColumnOf(StructType(fields), col)
    ensures forall c | c in Cells(col) :: HasType(StructType(fields), c)
    decreases fields, 1
  {
    forall i | 0 <= i < col.len
      ensures HasType(StructType(fields), Cells(col)[i])
    {
      if IsValid(col.nulls, i) {
        RowTyped(fields, col.children, i);
        var all := seq(|col.children|, j requires 0 <= j < |col.children| => Cells(col.children[j]));
        assert RowOf(all, i)
               == seq(|col.children|, j requires 0 <= j < |col.children| => Cells(col.children[j])[i]);
      }
    }
  }

  lemma {:induction false} RowTyped(fields: seq<Field>, cols: seq<Column>, row: nat)
    requires ColumnsOf(fields, cols)
    requires forall c | c in cols :: LayoutOk(c) && row < Len(c)
    ensures HaveTypes(fields, seq(|cols|, j requires 0 <= j < |cols| => Cells(cols[j])[row]))
    decreases fields, 0
  {
    if |fields| > 0 {
      assert fields[0].ty < fields[0];
      ColumnTyped(fields[0].ty, cols[0]);
      RowTyped(fields[1..], cols[1..], row);
      var parts := seq(|cols|, j requires 0 <= j < |cols| => Cells(cols[j])[row]);
      assert parts[1..] == seq(|cols[1..]|, j requires 0 <= j < |cols[1..]| => Cells(cols[1..][j])[row]);
    }
  }

  // ---- Reading a cell off a column: where the parts of one row lie ----

  lemma SlotParts(ty: Type, col: Column, row: nat)
    requires ColumnOf(ty, col) && row < Len(col)
    requires !ty.ListType? && !ty.FixedListType? && !ty.StructType? && !ty.MapType?
    ensures col.Slots? && row < |col.cells| && Cells(col)[row] == col.cells[row] && HasType(ty, col.cells[row])
  {
    assert col.cells[row] in col.cells;
  }

  lemma ListParts(ty: Type, col: Column, row: nat)
    requires ty.ListType? && ColumnOf(ty, col) && row < Len(col)
    ensures col.Lists? && row + 1 < |col.offsets| && LayoutOk(col.child) && ColumnOf(ty.child, col.child)
    ensures col.offsets[row] <= col.offsets[row + 1] <= Len(col.child)
    ensures Cells(col)[row] == if IsValid(col.nulls, row)
                               then ListCell(Cells(col.child)[col.offsets[row]..col.offsets[row + 1]]) else NullCell
  {
  }

  lemma FixedParts(ty: Type, col: Column, row: nat)
    requires ty.FixedListType? && ColumnOf(ty, col) && row < Len(col)
    ensures col.FixedLists? && LayoutOk(col.child) && ColumnOf(ty.child, col.child)
    ensures row * ty.size + ty.size <= Len(col.child)
    ensures Cells(col)[row] == if IsValid(col.nulls, row)
                               then ListCell(Cells(col.child)[row * ty.size..row * ty.size + ty.size]) else NullCell
  {
    RowWithin(row, col.len, col.size);
  }

  lemma StructParts(ty: Type, col: Column, row: nat)
    requires ty.StructType? && ColumnOf(ty, col) && row < Len(col)
    ensures col.Structs? && ColumnsOf(ty.fields, col.children)
    ensures forall c | c in col.children :: LayoutOk(c) && row < Len(c)
    ensures Cells(col)[row] == if IsValid(col.nulls, row) then StructCell(RowAcross(col.children, row)) else NullCell
  {
    if IsValid(col.nulls, row) {
      assert Cells(col)[row].parts == RowAcross(col.children, row);
    }
  }

  lemma MapParts(ty: Type, col: Column, row: nat)
    requires ty.MapType? && ColumnOf(ty, col) && row < Len(col)
    ensures col.Maps? && row + 1 < |col.offsets| && LayoutOk(col.keys) && LayoutOk(col.vals)
    ensures ColumnOf(ty.key, col.keys) && ColumnOf(ty.val, col.vals) && Len(col.keys) == Len(col.vals)
    ensures col.offsets[row] <= col.offsets[row + 1] <= Len(col.keys)
    ensures var lo, hi := col.offsets[row], col.offsets[row + 1];
            Cells(col)[row] == if IsValid(col.nulls, row)
                               then MapCell(Zip(Cells(col.keys)[lo..hi], Cells(col.vals)[lo..hi])) else NullCell
  {
  }

  /** The value of row `row`: children are read through the offsets, one after the other. */
  method ValueAt(pf: Platform, ty: Type, col: Column, row: nat) returns (v: Cbor)
    requires ColumnOf(ty, col) && row < Len(col)
    ensures v == WriteCell(pf, ty, Cells(col)[row])
    decreases ty, 3
  {
    hide Cells, ColumnOf, ColumnsOf, LayoutOk, Len, HasType, WriteAll, WriteNumber;
    if ty.ListType? {
      ListParts(ty, col, row);
      if !IsValid(col.nulls, row) {
        return Null;
      }
      var items := Extent(pf, ty.child, col.child, col.offsets[row], col.offsets[row + 1]);
      return Array(items);
    } else if ty.FixedListType? {
      FixedParts(ty, col, row);
      if !IsValid(col.nulls, row) {
        return Null;
      }
      var items := Extent(pf, ty.child, col.child, row * ty.size, row * ty.size + ty.size);
      return Array(items);
    } else if ty.StructType? {
      StructParts(ty, col, row);
      if !IsValid(col.nulls, row) {
        return Null;
      }
      var entries := StructEntries(pf, ty.fields, col.children, row);
      return Map(entries);
    } else if ty.MapType? {
      MapParts(ty, col, row);
      if !IsValid(col.nulls, row) {
        return Null;
      }
      var lo, hi := col.offsets[row], col.offsets[row + 1];
      var keys := Extent(pf, ty.key, col.keys, lo, hi);
      var vals := Extent(pf, ty.val, col.vals, lo, hi);
      var entries := ZipEntries(keys, vals);
      PairsWritten(pf, ty, Cells(col.keys)[lo..hi], Cells(col.vals)[lo..hi], entries);
      return Map(entries);
    } else {
      SlotParts(ty, col, row);
      v := SlotValue(pf, ty, col.cells[row]);
    }
  }

  /** The scalar arms. */
  method SlotValue(pf: Platform, ty: Type, c: Cell) returns (v: Cbor)
    requires HasType(ty, c) && !c.ListCell? && !c.StructCell? && !c.MapCell?
    ensures v == WriteCell(pf, ty, c)
  {
    hide WriteNumber;
    match c
    case NullCell => return Null;
    case BoolCell(b) => return Bool(b);
    case NumCell(n) => return WriteNumber(ty, n);
    case SingleCell(single) => return Float(pf.widen(single));
    case DoubleCell(f) => return Float(f);
    case TextCell(s) => return Text(s);
    case BytesCell(b) => return Blob(b);
  }

  method ZipEntries(keys: seq<Cbor>, vals: seq<Cbor>) returns (entries: seq<Entry>)
    requires |keys| == |vals|
    ensures |entries| == |keys| && forall i | 0 <= i < |keys| :: entries[i] == Entry(keys[i], vals[i])
  {
    entries := [];
    for i := 0 to |keys|
      invariant |entries| == i
      invariant forall j | 0 <= j < i :: entries[j] == Entry(keys[j], vals[j])
    {
      entries := entries + [Entry(keys[i], vals[i])];
    }
  }

  lemma PairsWritten(pf: Platform, ty: Type, keys: seq<Cell>, vals: seq<Cell>, entries: seq<Entry>)
    requires ty.MapType? && |keys| == |vals| == |entries|
    requires var ks, vs := WriteAll(pf, ty.key, keys), WriteAll(pf, ty.val, vals);
             forall i | 0 <= i < |keys| :: entries[i] == Entry(ks[i], vs[i])
    ensures entries == WritePairs(pf, ty, Zip(keys, vals))
  {
    hide WriteCell;
  }

  ghost function RowAcross(cols: seq<Column>, row: nat): (r: seq<Cell>)
    requires forall c | c in cols :: LayoutOk(c) && row < Len(c)
    ensures |r| == |cols|
  {
    seq(|cols|, j requires 0 <= j < |cols| => Cells(cols[j])[row])
  }

  /** The values of the child rows `lo` up to `hi`. */
  method Extent(pf: Platform, ty: Type, col: Column, lo: nat, hi: nat) returns (out: seq<Cbor>)
    requires ColumnOf(ty, col) && lo <= hi <= Len(col)
    ensures out == WriteAll(pf, ty, Cells(col)[lo..hi])
    decreases ty, 4
  {
    hide *;
    ColumnLaid(ty, col);
    ghost var all := Cells(col);
    out := [];
    for i := 0 to hi - lo
      invariant |out| == i
      invariant forall j | 0 <= j < i :: out[j] == WriteCell(pf, ty, all[lo + j])
    {
      var v := ValueAt(pf, ty, col, lo + i);
      out := out + [v];
    }
    AllWritten(pf, ty, all[lo..hi], out);
  }

  lemma ColumnLaid(ty: Type, col: Column)
    requires ColumnOf(ty, col)
    ensures LayoutOk(col)
  {
  }

  lemma AllWritten(pf: Platform, ty: Type, cells: seq<Cell>, vs: seq<Cbor>)
    requires |vs| == |cells| && forall j | 0 <= j < |vs| :: vs[j] == WriteCell(pf, ty, cells[j])
    ensures vs == WriteAll(pf, ty, cells)
  {
  }

  method StructEntries(pf: Platform, fields: seq<Field>, cols: seq<Column>, row: nat) returns (entries: seq<Entry>)
    requires ColumnsOf(fields, cols)
    requires forall c | c in cols :: LayoutOk(c) && row < Len(c)
    ensures |fields| == |cols| && entries == WriteParts(pf, fields, RowAcross(cols, row))
    decreases fields, 4
  {
    hide *;
    FieldCount(fields, cols);
    ghost var parts := RowAcross(cols, row);
    entries := [];
    for i := 0 to |fields|
      invariant |entries| == i
      invariant forall j | 0 <= j < i ::
                  entries[j] == Entry(Text(fields[j].name), WriteCell(pf, fields[j].ty, parts[j]))
    {
      assert fields[i] in fields && fields[i].ty < fields[i];
      ColumnAt(fields, cols, i);
      AcrossAt(cols, row, i);
      var v := ValueAt(pf, fields[i].ty, cols[i], row);
      entries := entries + [Entry(Text(fields[i].name), v)];
    }
    assert entries == WriteParts(pf, fields, parts);
  }

  lemma AcrossAt(cols: seq<Column>, row: nat, i: nat)
    requires i < |cols| && forall c | c in cols :: LayoutOk(c) && row < Len(c)
    ensures RowAcross(cols, row)[i] == Cells(cols[i])[row]
  {
  }

  lemma {:induction false} FieldCount(fields: seq<Field>, cols: seq<Column>)
    requires ColumnsOf(fields, cols)
    ensures |fields| == |cols|
  {
  }

  lemma {:induction false} ColumnAt(fields: seq<Field>, cols: seq<Column>, i: nat)
    requires ColumnsOf(fields, cols) && i < |fields|
    ensures ColumnOf(fields[i].ty, cols[i])
  {
    if i > 0 {
      ColumnAt(fields[1..], cols[1..], i - 1);
    }
  }
}
