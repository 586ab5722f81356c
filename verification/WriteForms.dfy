/** What each cell is written as, type by type. */
module WriteForms {
  import opened Base
  import opened Values
  import opened Bignum
  import opened Exact
  import opened Columns
  import opened ValueIn
  import opened ReadForms
  import opened Rows
  import opened CopyTo

  /** NULL is null in every type; booleans, texts, byte strings and doubles are themselves, and a single is widened. */
  lemma PlainForms(pf: Platform, ty: Type, b: bool, single: F32, f: F64, s: Utf8, bytes: Bytes)
    ensures WriteCell(pf, ty, NullCell) == Null
    ensures WriteCell(pf, BooleanType, BoolCell(b)) == Bool(b)
    ensures WriteCell(pf, Float32Type, SingleCell(single)) == Float(pf.widen(single))
    ensures WriteCell(pf, Float64Type, DoubleCell(f)) == Float(f)
    ensures WriteCell(pf, TextType, TextCell(s)) == Text(s)
    ensures WriteCell(pf, BinaryType, BytesCell(bytes)) == Blob(bytes)
    ensures WriteCell(pf, FixedBinaryType(|bytes|), BytesCell(bytes)) == Blob(bytes)
  {
  }

  /** Integers are native; a DATE is its days under tag 100 (section 2 of RFC 8943). */
  lemma IntegerWritten(pf: Platform, w: IntType, n: int)
    ensures InWidth(w, n) ==> WriteCell(pf, IntegerType(w), NumCell(n)) == Integer(n)
    ensures InWidth(I32, n) ==> WriteCell(pf, DateType, NumCell(n)) == Tag(100, Integer(n))
  {
  }

  /** A TIME is a bare count of microseconds; nanoseconds are cut towards midnight. */
  lemma TimeWritten(pf: Platform, n: int)
    ensures InWidth(I32, n) ==> WriteCell(pf, TimeType(Second), NumCell(n)) == Integer(n * 1_000_000)
    ensures InWidth(I32, n) ==> WriteCell(pf, TimeType(Millisecond), NumCell(n)) == Integer(n * 1_000)
    ensures InWidth(I64, n) ==> WriteCell(pf, TimeType(Microsecond), NumCell(n)) == Integer(n)
    ensures InWidth(I64, n) ==> var v := WriteCell(pf, TimeType(Nanosecond), NumCell(n));
                                v.Integer? && if n >= 0 then v.n * 1_000 <= n < (v.n + 1) * 1_000
                                              else (v.n - 1) * 1_000 < n <= v.n * 1_000
  {
  }

  /** The mantissa of a written decimal fraction, and its exponent. */
  ghost predicate IsFraction(v: Cbor, exponent: CborInt, n: int) {
    exists mantissa ::
      && v == Tag(4, Array([Integer(exponent), mantissa]))
      && IsI128(n) && FromValue(mantissa) == Some(n)
  }

  /** A DECIMAL is a decimal fraction (tag 4, section 3.4.4 of RFC 8949) of its unscaled integer and its scale. */
  lemma DecimalWritten(pf: Platform, scale: Scale, n: I128)
    ensures IsFraction(WriteCell(pf, DecimalType(scale), NumCell(n)), -(scale as int), n)
  {
    BignumRoundTrip(n);
    hide FromValue, ToValue;
    var v := WriteCell(pf, DecimalType(scale), NumCell(n));
    assert v == Tag(4, Array([Integer(-(scale as int)), ToValue(n)]));
  }

  /** A TIMESTAMP is a tag 1 (section 3.4.2 of RFC 8949) over whole seconds, when it is a whole number of them, and
      otherwise over the decimal fraction of its units. */
  lemma TimestampWritten(pf: Platform, unit: TimeUnit, n: I64)
    ensures var v, per := WriteCell(pf, TimestampType(unit), NumCell(n)), PerSecond(unit);
            && v.Tag? && v.tag == 1
            && if n % per == 0 then v.inner.Integer? && v.inner.n * per == n
               else IsFraction(v.inner, 0 - SecondDigits(unit), n)
  {
    hide Pow10, FromValue, ToValue;
    UnitPower(unit);
    BignumRoundTrip(n);
    var per := PerSecond(unit);
    if n % per == 0 {
      ExactQuotient(n, per, TruncDiv(n, per));
    } else {
      var v := WriteCell(pf, TimestampType(unit), NumCell(n)).inner;
      assert v == Tag(4, Array([Integer(0 - SecondDigits(unit)), ToValue(n)]));
    }
  }

  /** A LIST is the array of its elements, a STRUCT the map of its fields under their names, and a MAP the map of its
      pairs, all in order. */
  lemma NestedWritten(pf: Platform, child: Type, size: nat, fields: seq<Field>, key: Type, val: Type,
                      items: seq<Cell>, parts: seq<Cell>, pairs: seq<Pair>)
    requires |parts| == |fields|
    ensures var v := WriteCell(pf, ListType(child), ListCell(items));
            && v.Array? && |v.items| == |items| && WriteCell(pf, FixedListType(child, size), ListCell(items)) == v
            && forall i | 0 <= i < |items| :: v.items[i] == WriteCell(pf, child, items[i])
    ensures var v := WriteCell(pf, StructType(fields), StructCell(parts));
            && v.Map? && |v.entries| == |fields|
            && forall i | 0 <= i < |fields| ::
                 v.entries[i] == Entry(Text(fields[i].name), WriteCell(pf, fields[i].ty, parts[i]))
    ensures var v := WriteCell(pf, MapType(key, val), MapCell(pairs));
            && v.Map? && |v.entries| == |pairs|
            && forall i | 0 <= i < |pairs| ::
                 v.entries[i] == Entry(WriteCell(pf, key, pairs[i].key), WriteCell(pf, val, pairs[i].val))
  {
    hide WriteAll, WriteParts, WritePairs;
  }

  /** A row is the map of its cells under the column names, or the array of its cells; without a canonical mode it is
      encoded as it is. */
  lemma RowForms(pf: Platform, schema: seq<Field>, cells: seq<Cell>)
    requires |cells| == |schema|
    ensures RowValue(pf, MapShape, schema, cells) == WriteCell(pf, StructType(schema), StructCell(cells))
    ensures var v := RowValue(pf, ArrayShape, schema, cells);
            v.Array? && |v.items| == |cells| && forall i | 0 <= i < |cells| ::
              v.items[i] == WriteCell(pf, schema[i].ty, cells[i])
    ensures var row := RowValue(pf, MapShape, schema, cells);
            Options(MapShape, None).Framed(row) == row
  {
    hide WriteParts;
  }
}
