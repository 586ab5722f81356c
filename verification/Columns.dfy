/** Column types, logical cells, and the columnar layout that holds them: offsets, validity masks, child columns. */
module Columns {
  import opened Base
  import opened Values

  // ---- Types ----

  datatype IntType = I8 | I16 | I32 | I64 | U8 | U16 | U32 | U64

  datatype TimeUnit = Second | Millisecond | Microsecond | Nanosecond

  datatype Type =
    | NullType
    | BooleanType
    | IntegerType(width: IntType)
    | Float32Type
    | Float64Type
    | DateType
    | TimeType(unit: TimeUnit)
    | TimestampType(unit: TimeUnit)
    | DecimalType(scale: Scale)
    | TextType
    | BinaryType
    | FixedBinaryType(size: nat)
    | FixedListType(child: Type, size: nat)
    | ListType(child: Type)
    | StructType(fields: seq<Field>)
    | MapType(key: Type, val: Type)

  type Scale = n: int | -128 <= n < 128

  datatype Field = Field(name: Utf8, ty: Type)

  function Low(w: IntType): int {
    match w
    case I8 => -0x80
    case I16 => -0x8000
    case I32 => -0x8000_0000
    case I64 => -TWO_63
    case _ => 0
  }

  function High(w: IntType): int {
    match w
    case I8 => 0x7F
    case I16 => 0x7FFF
    case I32 => 0x7FFF_FFFF
    case I64 => TWO_63 - 1
    case U8 => 0xFF
    case U16 => 0xFFFF
    case U32 => TWO_32 - 1
    case U64 => TWO_64 - 1
  }

  /** Fractional digits of a second in a unit. */
  function Digits(u: TimeUnit): nat {
    match u
    case Second => 0
    case Millisecond => 3
    case Microsecond => 6
    case Nanosecond => 9
  }

  // ---- Cells ----

  /** One logical value. Every integer-backed type (integers, dates, times, timestamps, decimals) is a `NumCell`. */
  datatype Cell =
    | NullCell
    | BoolCell(b: bool)
    | NumCell(n: int)
    | SingleCell(single: F32)
    | DoubleCell(f: F64)
    | TextCell(s: Utf8)
    | BytesCell(bytes: Bytes)
    | ListCell(items: seq<Cell>)
    | StructCell(parts: seq<Cell>)
    | MapCell(pairs: seq<Pair>)

  datatype Pair = Pair(key: Cell, val: Cell)

  predicate InRange(ty: Type, n: int) {
    match ty
    case IntegerType(w) => Low(w) <= n <= High(w)
    case DateType => IsI32(n)
    case TimeType(u) => if u == Second || u == Millisecond then IsI32(n) else IsI64(n)
    case TimestampType(_) => IsI64(n)
    case DecimalType(_) => IsI128(n)
    case _ => false
  }

  /** The cell belongs to the type. Map keys are not null. */
  predicate HasType(ty: Type, c: Cell)
    decreases ty, 0
  {
    match c
    case NullCell => true
    case BoolCell(_) => ty.BooleanType?
    case NumCell(n) => InRange(ty, n)
    case SingleCell(_) => ty.Float32Type?
    case DoubleCell(_) => ty.Float64Type?
    case TextCell(_) => ty.TextType?
    case BytesCell(b) => ty.BinaryType? || (ty.FixedBinaryType? && |b| == ty.size)
    case ListCell(items) =>
      (ty.ListType? || (ty.FixedListType? && |items| == ty.size)) && forall x | x in items :: HasType(ty.child, x)
    case StructCell(parts) => ty.StructType? && HaveTypes(ty.fields, parts)
    case MapCell(pairs) =>
      ty.MapType? && forall p | p in pairs :: HasType(ty.key, p.key) && HasType(ty.val, p.val) && p.key != NullCell
  }

  lemma NullTyped(ty: Type)
    ensures HasType(ty, NullCell)
  {
  }

  predicate HaveTypes(fields: seq<Field>, parts: seq<Cell>)
    decreases fields, 0
  {
    && |fields| == |parts|
    && (|fields| > 0 ==>
          assert fields[0].ty < fields[0];
          HasType(fields[0].ty, parts[0]) && HaveTypes(fields[1..], parts[1..]))
  }

  /** Field names within one STRUCT, at any depth, are distinct. */
  predicate WellFormed(ty: Type)
    decreases ty, 0
  {
    match ty
    case FixedListType(child, _) => WellFormed(child)
    case ListType(child) => WellFormed(child)
    case StructType(fields) => DistinctNames(fields) && WellFormedAll(fields)
    case MapType(key, val) => WellFormed(key) && WellFormed(val)
    case _ => true
  }

  predicate WellFormedAll(fields: seq<Field>)
    decreases fields, 0
  {
    |fields| > 0 ==>
      assert fields[0].ty < fields[0];
      WellFormed(fields[0].ty) && WellFormedAll(fields[1..])
  }

  predicate DistinctNames(fields: seq<Field>) {
    forall i, j | 0 <= i < j < |fields| :: fields[i].name != fields[j].name
  }

  // ---- Columns ----

  /** A validity mask, absent when every row is valid. */
  type Mask = Option<seq<bool>>

  predicate IsValid(nulls: Mask, row: nat) {
    nulls.None? || row >= |nulls.value| || nulls.value[row]
  }

  datatype Column =
    | Slots(cells: seq<Cell>)
    | Lists(offsets: seq<nat>, nulls: Mask, child: Column)
    | FixedLists(len: nat, size: nat, nulls: Mask, child: Column)
    | Structs(len: nat, nulls: Mask, children: seq<Column>)
    | Maps(offsets: seq<nat>, nulls: Mask, keys: Column, vals: Column)

  function Len(col: Column): nat {
    match col
    case Slots(cells) => |cells|
    case Lists(offsets, _, _) => if |offsets| == 0 then 0 else |offsets| - 1
    case FixedLists(len, _, _, _) => len
    case Structs(len, _, _) => len
    case Maps(offsets, _, _, _) => if |offsets| == 0 then 0 else |offsets| - 1
  }

  predicate MaskFits(nulls: Mask, len: nat) {
    nulls.Some? ==> |nulls.value| == len
  }

  /** Offsets start row extents that follow each other within the child. */
  predicate OffsetsFit(offsets: seq<nat>, len: nat) {
    && |offsets| > 0 && offsets[|offsets| - 1] <= len
    && forall i, j | 0 <= i <= j < |offsets| :: offsets[i] <= offsets[j]
  }

  predicate LayoutOk(col: Column)
    decreases col, 0
  {
    match col
    case Slots(_) => true
    case Lists(offsets, nulls, child) =>
      LayoutOk(child) && OffsetsFit(offsets, Len(child)) && MaskFits(nulls, |offsets| - 1)
    case FixedLists(len, size, nulls, child) =>
      LayoutOk(child) && Len(child) == len * size && MaskFits(nulls, len)
    case Structs(len, nulls, children) =>
      MaskFits(nulls, len) && forall c | c in children :: LayoutOk(c) && Len(c) == len
    case Maps(offsets, nulls, keys, vals) =>
      && LayoutOk(keys) && LayoutOk(vals) && Len(keys) == Len(vals)
      && OffsetsFit(offsets, Len(keys)) && MaskFits(nulls, |offsets| - 1)
  }

  /** The logical content of a column, row by row. */
  ghost function Cells(col: Column): (r: seq<Cell>)
    requires LayoutOk(col)
    ensures |r| == Len(col)
    decreases col
  {
    match col
    case Slots(cells) => cells
    case Lists(offsets, nulls, child) => ListRows(offsets, nulls, Cells(child))
    case FixedLists(len, size, nulls, child) => FixedRows(len, size, nulls, Cells(child))
    case Structs(len, nulls, children) =>
      StructRows(len, nulls, seq(|children|, i requires 0 <= i < |children| => Cells(children[i])))
    case Maps(offsets, nulls, keys, vals) => MapRows(offsets, nulls, Cells(keys), Cells(vals))
  }

  ghost function ListRows(offsets: seq<nat>, nulls: Mask, child: seq<Cell>): (r: seq<Cell>)
    requires OffsetsFit(offsets, |child|)
    ensures |r| == |offsets| - 1
  {
    seq(|offsets| - 1, i requires 0 <= i < |offsets| - 1 =>
      if IsValid(nulls, i) then ListCell(child[offsets[i]..offsets[i + 1]]) else NullCell)
  }

  ghost function FixedRows(len: nat, size: nat, nulls: Mask, child: seq<Cell>): (r: seq<Cell>)
    requires |child| == len * size
    ensures |r| == len
  {
    seq(len, i requires 0 <= i < len =>
      if IsValid(nulls, i) then RowWithin(i, len, size); ListCell(child[i * size..i * size + size]) else NullCell)
  }

  /** Row `i` of `len` rows of `size` elements lies within them. */
  lemma RowWithin(i: nat, len: nat, size: nat)
    requires i < len
    ensures i * size + size <= len * size
  {
    NonNegative(len - i - 1, size);
    assert (len - i - 1) * size == len * size - (i * size + size);
  }

  ghost function StructRows(len: nat, nulls: Mask, children: seq<seq<Cell>>): (r: seq<Cell>)
    requires forall c | c in children :: |c| == len
    ensures |r| == len
  {
    seq(len, i requires 0 <= i < len =>
      if IsValid(nulls, i) then StructCell(RowOf(children, i)) else NullCell)
  }

  /** One row across several columns. */
  ghost function RowOf(children: seq<seq<Cell>>, row: nat): (r: seq<Cell>)
    requires forall c | c in children :: row < |c|
    ensures |r| == |children|
  {
    seq(|children|, j requires 0 <= j < |children| => children[j][row])
  }

  ghost function MapRows(offsets: seq<nat>, nulls: Mask, keys: seq<Cell>, vals: seq<Cell>): (r: seq<Cell>)
    requires |keys| == |vals| && OffsetsFit(offsets, |keys|)
    ensures |r| == |offsets| - 1
  {
    seq(|offsets| - 1, i requires 0 <= i < |offsets| - 1 =>
      if IsValid(nulls, i)
      then MapCell(Zip(keys[offsets[i]..offsets[i + 1]], vals[offsets[i]..offsets[i + 1]])) else NullCell)
  }

  function Zip(keys: seq<Cell>, vals: seq<Cell>): (r: seq<Pair>)
    requires |keys| == |vals|
    ensures |r| == |keys|
  {
    seq(|keys|, i requires 0 <= i < |keys| => Pair(keys[i], vals[i]))
  }

  // ---- What the layouts mean (the Arrow columnar format) ----

  /** A row is NULL exactly where a mask is there and false. */
  predicate Masked(nulls: Mask, i: nat) {
    nulls.Some? && i < |nulls.value| && !nulls.value[i]
  }

  /** Row `i` of a list lies between offsets `i` and `i + 1` of the child. */
  lemma ListLayout(offsets: seq<nat>, nulls: Mask, child: Column, i: nat)
    requires LayoutOk(Lists(offsets, nulls, child)) && i + 1 < |offsets|
    ensures offsets[i] <= offsets[i + 1] <= |Cells(child)|
    ensures Cells(Lists(offsets, nulls, child))[i]
            == if Masked(nulls, i) then NullCell else ListCell(Cells(child)[offsets[i]..offsets[i + 1]])
  {
  }

  /** Row `i` of a fixed list lies at `i` times its size. */
  lemma FixedLayout(len: nat, size: nat, nulls: Mask, child: Column, i: nat)
    requires LayoutOk(FixedLists(len, size, nulls, child)) && i < len
    ensures i * size + size <= |Cells(child)|
    ensures Cells(FixedLists(len, size, nulls, child))[i]
            == if Masked(nulls, i) then NullCell else ListCell(Cells(child)[i * size..i * size + size])
  {
    RowWithin(i, len, size);
  }

  /** A STRUCT reads across its children. */
  lemma StructLayout(len: nat, nulls: Mask, children: seq<Column>, i: nat, j: nat)
    requires LayoutOk(Structs(len, nulls, children)) && i < len && j < |children|
    ensures LayoutOk(children[j]) && i < |Cells(children[j])|
    ensures var c := Cells(Structs(len, nulls, children))[i];
            if Masked(nulls, i) then c == NullCell
            else c.StructCell? && |c.parts| == |children| && c.parts[j] == Cells(children[j])[i]
  {
    assert children[j] in children;
  }

  /** A MAP reads across its keys and values, between two offsets. */
  lemma MapLayout(offsets: seq<nat>, nulls: Mask, keys: Column, vals: Column, i: nat, j: nat)
    requires LayoutOk(Maps(offsets, nulls, keys, vals)) && i + 1 < |offsets| && offsets[i] + j < offsets[i + 1]
    ensures offsets[i + 1] <= |Cells(keys)| && offsets[i + 1] <= |Cells(vals)|
    ensures var c, k := Cells(Maps(offsets, nulls, keys, vals))[i], offsets[i] + j;
            if Masked(nulls, i) then c == NullCell
            else c.MapCell? && |c.pairs| == offsets[i + 1] - offsets[i]
                 && c.pairs[j] == Pair(Cells(keys)[k], Cells(vals)[k])
  {
    hide MapRows;
    MapRow(offsets, nulls, Cells(keys), Cells(vals), i, j);
  }

  lemma MapRow(offsets: seq<nat>, nulls: Mask, keys: seq<Cell>, vals: seq<Cell>, i: nat, j: nat)
    requires |keys| == |vals| && OffsetsFit(offsets, |keys|) && MaskFits(nulls, |offsets| - 1)
    requires i + 1 < |offsets| && offsets[i] + j < offsets[i + 1]
    ensures offsets[i + 1] <= |keys|
    ensures var c, k := MapRows(offsets, nulls, keys, vals)[i], offsets[i] + j;
            if Masked(nulls, i) then c == NullCell
            else c.MapCell? && |c.pairs| == offsets[i + 1] - offsets[i] && c.pairs[j] == Pair(keys[k], vals[k])
  {
    hide Zip;
    assert offsets[i + 1] <= offsets[|offsets| - 1];
    ZipBetween(keys, vals, offsets[i], offsets[i + 1], j);
  }

  lemma ZipBetween(keys: seq<Cell>, vals: seq<Cell>, lo: nat, hi: nat, j: nat)
    requires |keys| == |vals| && lo + j < hi <= |keys|
    ensures Zip(keys[lo..hi], vals[lo..hi])[j] == Pair(keys[lo + j], vals[lo + j])
  {
  }

  /** The column has the shape of its type, scalar slots hold values of it, and every layer is sound. */
  ghost predicate ColumnOf(ty: Type, col: Column)
    decreases ty, 0
  {
    && LayoutOk(col)
    && match ty
       case ListType(child) => col.Lists? && ColumnOf(child, col.child)
       case FixedListType(child, size) => col.FixedLists? && col.size == size && ColumnOf(child, col.child)
       case StructType(fields) => col.Structs? && ColumnsOf(fields, col.children)
       case MapType(key, val) =>
         && col.Maps? && ColumnOf(key, col.keys) && ColumnOf(val, col.vals)
         && NullCell !in Cells(col.keys)
       case _ => col.Slots? && forall c | c in col.cells :: HasType(ty, c)
  }

  ghost predicate ColumnsOf(fields: seq<Field>, cols: seq<Column>)
    decreases fields, 0
  {
    && |fields| == |cols|
    && (|fields| > 0 ==>
          assert fields[0].ty < fields[0];
          ColumnOf(fields[0].ty, cols[0]) && ColumnsOf(fields[1..], cols[1..]))
  }
}
