/** Building a column of a target type from one CBOR value per row: rows are flattened into offsets, a validity mask
    and child values, and the children are built the same way. */
module ValueOut {
  import opened Base
  import opened Values
  import opened Columns
  import opened ReadCells

  // ---- Flattening ----

  /** The elements of all rows, one row after the other. */
  function Flat<T>(rows: seq<seq<T>>): seq<T> {
    if |rows| == 0 then [] else Flat(rows[..|rows| - 1]) + rows[|rows| - 1]
  }

  /** Where each row starts in the flat elements, and where the last one ends. */
  function Starts<T>(rows: seq<seq<T>>): (r: seq<nat>)
    ensures |r| == |rows| + 1
  {
    seq(|rows| + 1, i requires 0 <= i <= |rows| => |Flat(rows[..i])|)
  }

  lemma FlatNone<T>()
    ensures Flat<T>([]) == []
  {
  }

  lemma FlatNext<T>(rows: seq<seq<T>>, i: nat)
    requires i < |rows|
    ensures Flat(rows[..i + 1]) == Flat(rows[..i]) + rows[i]
  {
    assert rows[..i + 1][..i] == rows[..i];
  }

  lemma {:induction false} FlatPrefix<T>(rows: seq<seq<T>>, i: nat, j: nat)
    requires i <= j <= |rows|
    ensures Flat(rows[..i]) <= Flat(rows[..j])
    decreases j
  {
    if i < j {
      FlatPrefix(rows, i, j - 1);
      FlatNext(rows, j - 1);
    }
  }

  /** Offsets recover the rows. */
  lemma FlatRow<T>(rows: seq<seq<T>>, i: nat)
    requires i < |rows|
    ensures var s := Starts(rows);
            s[i] <= s[i + 1] <= |Flat(rows)| && Flat(rows)[s[i]..s[i + 1]] == rows[i]
  {
    FlatNext(rows, i);
    FlatPrefix(rows, i + 1, |rows|);
    assert rows[..|rows|] == rows;
  }

  lemma StartsFit<T>(rows: seq<seq<T>>)
    ensures OffsetsFit(Starts(rows), |Flat(rows)|)
  {
    assert rows[..|rows|] == rows;
    forall i, j | 0 <= i <= j < |Starts(rows)|
      ensures Starts(rows)[i] <= Starts(rows)[j]
    {
      FlatPrefix(rows, i, j);
    }
  }

  lemma {:induction false} FlatMember<T>(rows: seq<seq<T>>, x: T)
    requires x in Flat(rows)
    ensures exists i | 0 <= i < |rows| :: x in rows[i]
  {
    var n := |rows| - 1;
    if x in rows[n] {
    } else {
      FlatMember(rows[..n], x);
      var i :| 0 <= i < |rows[..n]| && x in rows[..n][i];
      assert x in rows[i];
    }
  }

  /** Rows of one size start at its multiples. */
  lemma {:induction false} FlatUniform<T>(rows: seq<seq<T>>, size: nat)
    requires forall r | r in rows :: |r| == size
    ensures |Flat(rows)| == |rows| * size
  {
    if |rows| > 0 {
      var n := |rows| - 1;
      FlatUniform(rows[..n], size);
      assert rows[n] in rows;
      OneMoreRow(n, size);
    }
  }

  lemma OneMoreRow(n: nat, size: nat)
    ensures (n + 1) * size == n * size + size
  {
  }

  /** `null_buffer`: a mask only when some row is null. */
  function NullBuffer(values: seq<Cbor>): (r: Mask)
    ensures MaskFits(r, |values|)
    ensures forall i | 0 <= i < |values| :: IsValid(r, i) <==> !IsNull(values[i])
    ensures r.None? <==> forall i | 0 <= i < |values| :: !IsNull(values[i])
    ensures r.Some? ==> |r.value| == |values| && forall i | 0 <= i < |values| :: r.value[i] <==> !IsNull(values[i])
  {
    if exists v | v in values :: IsNull(v)
    then Some(seq(|values|, i requires 0 <= i < |values| => !IsNull(values[i])))
    else None
  }

  // ---- What a row contributes ----

  function Elements(v: Cbor): seq<Cbor> {
    if !IsNull(v) && Content(v).Array? then Content(v).items else []
  }

  function ElementRows(values: seq<Cbor>): (r: seq<seq<Cbor>>)
    ensures |r| == |values|
  {
    seq(|values|, i requires 0 <= i < |values| => Elements(values[i]))
  }

  /** A null row of a fixed-length list contributes `size` nulls. */
  function FixedElements(v: Cbor, size: nat): seq<Cbor> {
    if IsNull(v) then seq(size, _ => Null) else Elements(v)
  }

  function FixedRowsOf(values: seq<Cbor>, size: nat): (r: seq<seq<Cbor>>)
    ensures |r| == |values|
  {
    seq(|values|, i requires 0 <= i < |values| => FixedElements(values[i], size))
  }

  function MapEntries(v: Cbor): seq<Entry> {
    if !IsNull(v) && Content(v).Map? then Content(v).entries else []
  }

  function EntryRows(values: seq<Cbor>): (r: seq<seq<Entry>>)
    ensures |r| == |values|
  {
    seq(|values|, i requires 0 <= i < |values| => MapEntries(values[i]))
  }

  /** A field's value in a row; null when the row is no map or has no such key. */
  function FieldOf(v: Cbor, name: Utf8): Cbor {
    if Content(v).Map? then Lookup(Content(v).entries, name) else Null
  }

  function FieldRows(values: seq<Cbor>, name: Utf8): (r: seq<Cbor>)
    ensures |r| == |values|
  {
    seq(|values|, i requires 0 <= i < |values| => FieldOf(values[i], name))
  }

  // ---- The loops ----

  /** `build_int`, `build_float`, `build_time` and the other scalar arms: one slot per row. */
  method BuildSlots(pf: Platform, ty: Type, values: seq<Cbor>) returns (r: Outcome<Column>)
    requires !ty.ListType? && !ty.FixedListType? && !ty.StructType? && !ty.MapType?
    ensures r.Ok? <==> ReadAll(pf, ty, values).Ok?
    ensures r.Ok? ==> ColumnOf(ty, r.value) && Cells(r.value) == ReadAll(pf, ty, values).value
  {
    hide *;
    var slots: seq<Cell> := [];
    for i := 0 to |values|
      invariant |slots| == i
      invariant forall j | 0 <= j < i :: ReadCell(pf, ty, values[j]) == Ok(slots[j])
    {
      var slot := NullCell;
      ReadSlot(pf, ty, values[i]);
      if !ty.NullType? && !IsNull(values[i]) {
        var read := ReadScalar(pf, ty, values[i]);
        if read.Refused? {
          assert ReadCell(pf, ty, values[i]).Refused?;
          return Refused;
        }
        slot := read.value;
      }
      slots := slots + [slot];
    }
    assert slots == ReadAll(pf, ty, values).value;
    SlotsTyped(pf, ty, values, slots);
    return Ok(Slots(slots));
  }

  lemma ReadSlot(pf: Platform, ty: Type, v: Cbor)
    requires !ty.ListType? && !ty.FixedListType? && !ty.StructType? && !ty.MapType?
    ensures ReadCell(pf, ty, v) == if ty.NullType? || IsNull(v) then Ok(NullCell) else ReadScalar(pf, ty, v)
  {
    hide ReadScalar;
  }

  lemma SlotsTyped(pf: Platform, ty: Type, values: seq<Cbor>, slots: seq<Cell>)
    requires !ty.ListType? && !ty.FixedListType? && !ty.StructType? && !ty.MapType?
    requires ReadAll(pf, ty, values) == Ok(slots)
    ensures ColumnOf(ty, Slots(slots)) && Cells(Slots(slots)) == slots
  {
    hide ReadAll, HasType;
    ReadAllTyped(pf, ty, values);
  }

  /** `flatten_lists` */
  method FlattenLists(values: seq<Cbor>) returns (r: Outcome<(seq<nat>, seq<Cbor>)>)
    ensures r.Ok? <==> forall v | v in values :: IsNull(v) || Content(v).Array?
    ensures r.Ok? ==> r.value == (Starts(ElementRows(values)), Flat(ElementRows(values)))
  {
    ghost var rows := ElementRows(values);
    var offsets: seq<nat>, flat: seq<Cbor> := [0], [];
    assert rows[..0] == [];
    for i := 0 to |values|
      invariant flat == Flat(rows[..i])
      invariant offsets == Starts(rows)[..i + 1]
      invariant forall j | 0 <= j < i :: IsNull(values[j]) || Content(values[j]).Array?
    {
      FlatNext(rows, i);
      if !IsNull(values[i]) {
        if !Content(values[i]).Array? {
          return Refused;
        }
        flat := flat + Content(values[i]).items;
      }
      offsets := offsets + [|flat|];
    }
    assert rows[..|values|] == rows && Starts(rows)[..|values| + 1] == Starts(rows);
    return Ok((offsets, flat));
  }

  method FlattenFixed(values: seq<Cbor>, size: nat) returns (r: Outcome<seq<Cbor>>)
    ensures r.Ok? <==>
            forall v | v in values :: IsNull(v) || (Content(v).Array? && |Content(v).items| == size)
    ensures r.Ok? ==> r.value == Flat(FixedRowsOf(values, size))
  {
    ghost var rows := FixedRowsOf(values, size);
    var flat: seq<Cbor> := [];
    assert rows[..0] == [];
    for i := 0 to |values|
      invariant flat == Flat(rows[..i])
      invariant forall j | 0 <= j < i ::
          IsNull(values[j]) || (Content(values[j]).Array? && |Content(values[j]).items| == size)
    {
      FlatNext(rows, i);
      if IsNull(values[i]) {
        flat := flat + seq(size, _ => Null);
      } else if Content(values[i]).Array? && |Content(values[i]).items| == size {
        flat := flat + Content(values[i]).items;
      } else {
        return Refused;
      }
    }
    assert rows[..|values|] == rows;
    return Ok(flat);
  }

  /** The keys and values of all rows' maps, with the offsets of the rows. */
  method FlattenMaps(values: seq<Cbor>) returns (r: Outcome<(seq<nat>, seq<Cbor>, seq<Cbor>)>)
    ensures r.Ok? <==> forall v | v in values :: IsNull(v) || Content(v).Map?
    ensures r.Ok? ==> var rows := EntryRows(values);
                      r.value == (Starts(rows), KeysOf(Flat(rows)), ValsOf(Flat(rows)))
  {
    hide Flat;
    ghost var rows := EntryRows(values);
    assert Flat(rows[..0]) == [] by {
      FlatNone<Entry>();
      assert rows[..0] == [];
    }
    var offsets: seq<nat>, keys: seq<Cbor>, vals: seq<Cbor> := [0], [], [];
    for i := 0 to |values|
      invariant keys == KeysOf(Flat(rows[..i])) && vals == ValsOf(Flat(rows[..i]))
      invariant offsets == Starts(rows)[..i + 1]
      invariant forall j | 0 <= j < i :: IsNull(values[j]) || Content(values[j]).Map?
    {
      FlatNext(rows, i);
      if !IsNull(values[i]) {
        if !Content(values[i]).Map? {
          return Refused;
        }
        ghost var before := keys;
        var entries := Content(values[i]).entries;
        for k := 0 to |entries|
          invariant keys == before + KeysOf(entries[..k])
          invariant vals == ValsOf(Flat(rows[..i])) + ValsOf(entries[..k])
        {
          keys, vals := keys + [entries[k].key], vals + [entries[k].val];
        }
        assert entries[..|entries|] == entries;
      }
      offsets := offsets + [|keys|];
    }
    assert rows[..|values|] == rows && Starts(rows)[..|values| + 1] == Starts(rows);
    return Ok((offsets, keys, vals));
  }

  // ---- Rows and their flat elements read alike ----

  lemma {:induction false} FlatContains<T>(rows: seq<seq<T>>, i: nat, x: T)
    requires i < |rows| && x in rows[i]
    ensures x in Flat(rows)
  {
    FlatRow(rows, i);
    var s := Starts(rows);
    assert x in Flat(rows)[s[i]..s[i + 1]];
  }

  ghost predicate Readable(pf: Platform, ty: Type, vs: seq<Cbor>) {
    ReadAll(pf, ty, vs).Ok?
  }

  lemma {:induction false} ReadAllFlat(pf: Platform, ty: Type, rows: seq<seq<Cbor>>)
    ensures Readable(pf, ty, Flat(rows)) <==> forall i | 0 <= i < |rows| :: Readable(pf, ty, rows[i])
  {
    hide ReadCell, ReadAll;
    if |rows| == 0 {
      ReadNone(pf, ty);
    } else {
      var n := |rows| - 1;
      ReadAllFlat(pf, ty, rows[..n]);
      ReadAllAppend(pf, ty, Flat(rows[..n]), rows[n]);
      assert forall i | 0 <= i < n :: rows[..n][i] == rows[i];
    }
  }

  lemma ReadNone(pf: Platform, ty: Type)
    ensures ReadAll(pf, ty, []) == Ok([])
  {
  }

  /** The cells of one row are the slice of the flat cells between its offsets. */
  lemma ReadAllRow(pf: Platform, ty: Type, rows: seq<seq<Cbor>>, i: nat)
    requires i < |rows| && ReadAll(pf, ty, Flat(rows)).Ok?
    ensures var s := Starts(rows);
            && s[i] <= s[i + 1] <= |Flat(rows)|
            && ReadAll(pf, ty, rows[i]) == Ok(ReadAll(pf, ty, Flat(rows)).value[s[i]..s[i + 1]])
  {
    hide ReadCell, ReadAll;
    FlatRow(rows, i);
    var s, flat := Starts(rows), Flat(rows);
    assert flat == flat[..s[i]] + (rows[i] + flat[s[i + 1]..]);
    ReadAllAppend(pf, ty, flat[..s[i]], rows[i] + flat[s[i + 1]..]);
    ReadAllAppend(pf, ty, rows[i], flat[s[i + 1]..]);
    var before, after := ReadAll(pf, ty, flat[..s[i]]).value, ReadAll(pf, ty, flat[s[i + 1]..]).value;
    Middle(before, ReadAll(pf, ty, rows[i]).value, after);
  }

  lemma Middle<T>(a: seq<T>, b: seq<T>, c: seq<T>)
    ensures (a + (b + c))[|a|..|a| + |b|] == b
  {
  }

  // ---- Lists ----

  lemma ReadListCell(pf: Platform, child: Type, v: Cbor)
    ensures var r := ReadCell(pf, ListType(child), v);
            var items := ReadAll(pf, child, Elements(v));
            && (r.Ok? <==> (IsNull(v) || Content(v).Array?) && items.Ok?)
            && (r.Ok? ==> r.value == if IsNull(v) then NullCell else ListCell(items.value))
  {
    hide ReadScalar;
    ReadNone(pf, child);
  }

  lemma ListsRefused(pf: Platform, child: Type, values: seq<Cbor>)
    ensures ReadAll(pf, ListType(child), values).Ok?
            <==> (forall v | v in values :: IsNull(v) || Content(v).Array?)
                 && ReadAll(pf, child, Flat(ElementRows(values))).Ok?
  {
    hide ReadCell, ReadAll, Flat;
    ReadAllFlat(pf, child, ElementRows(values));
    forall i | 0 <= i < |values|
      ensures ReadCell(pf, ListType(child), values[i]).Ok?
              <==> (IsNull(values[i]) || Content(values[i]).Array?)
                   && ReadAll(pf, child, ElementRows(values)[i]).Ok?
    {
      ReadListCell(pf, child, values[i]);
    }
  }

  lemma ListsRead(pf: Platform, child: Type, values: seq<Cbor>)
    requires ReadAll(pf, ListType(child), values).Ok?
    requires ReadAll(pf, child, Flat(ElementRows(values))).Ok?
    ensures var rows := ElementRows(values);
            && OffsetsFit(Starts(rows), |Flat(rows)|)
            && ListRows(Starts(rows), NullBuffer(values), ReadAll(pf, child, Flat(rows)).value)
               == ReadAll(pf, ListType(child), values).value
  {
    hide ReadCell, ReadAll, Flat;
    var rows := ElementRows(values);
    StartsFit(rows);
    var built := ListRows(Starts(rows), NullBuffer(values), ReadAll(pf, child, Flat(rows)).value);
    var read := ReadAll(pf, ListType(child), values).value;
    forall i | 0 <= i < |values|
      ensures built[i] == read[i]
    {
      ReadListCell(pf, child, values[i]);
      ReadAllRow(pf, child, rows, i);
    }
    assert built == read;
  }

  /** The list column over a child column that holds the flattened elements. */
  lemma ListsBuilt(pf: Platform, child: Type, values: seq<Cbor>, elements: Column)
    requires ReadAll(pf, ListType(child), values).Ok?
    requires ColumnOf(child, elements) && ReadAll(pf, child, Flat(ElementRows(values))) == Ok(Cells(elements))
    ensures var col := Lists(Starts(ElementRows(values)), NullBuffer(values), elements);
            ColumnOf(ListType(child), col) && Cells(col) == ReadAll(pf, ListType(child), values).value
  {
    hide ReadAll, Flat, Starts, ListRows;
    ListsRead(pf, child, values);
  }

  // ---- Fixed-length lists ----

  lemma ReadFixedCell(pf: Platform, child: Type, size: nat, v: Cbor)
    ensures var r := ReadCell(pf, FixedListType(child, size), v);
            var items := ReadAll(pf, child, FixedElements(v, size));
            && (r.Ok? <==> (IsNull(v) || (Content(v).Array? && |Content(v).items| == size)) && items.Ok?)
            && (r.Ok? ==> r.value == if IsNull(v) then NullCell else ListCell(items.value))
  {
    hide ReadScalar;
    assert forall x | x in FixedElements(v, size) && IsNull(v) :: IsNull(x);
  }

  lemma FixedRefused(pf: Platform, child: Type, size: nat, values: seq<Cbor>)
    ensures ReadAll(pf, FixedListType(child, size), values).Ok?
            <==> (forall v | v in values :: IsNull(v) || (Content(v).Array? && |Content(v).items| == size))
                 && ReadAll(pf, child, Flat(FixedRowsOf(values, size))).Ok?
  {
    hide ReadCell, ReadAll, Flat;
    ReadAllFlat(pf, child, FixedRowsOf(values, size));
    forall i | 0 <= i < |values|
      ensures ReadCell(pf, FixedListType(child, size), values[i]).Ok?
              <==> (IsNull(values[i]) || (Content(values[i]).Array? && |Content(values[i]).items| == size))
                   && ReadAll(pf, child, FixedRowsOf(values, size)[i]).Ok?
    {
      ReadFixedCell(pf, child, size, values[i]);
    }
  }

  lemma FixedRead(pf: Platform, child: Type, size: nat, values: seq<Cbor>)
    requires ReadAll(pf, FixedListType(child, size), values).Ok?
    requires ReadAll(pf, child, Flat(FixedRowsOf(values, size))).Ok?
    ensures var rows := FixedRowsOf(values, size);
            && |Flat(rows)| == |values| * size
            && FixedRows(|values|, size, NullBuffer(values), ReadAll(pf, child, Flat(rows)).value)
               == ReadAll(pf, FixedListType(child, size), values).value
  {
    hide ReadCell, ReadAll, Flat;
    var rows := FixedRowsOf(values, size);
    forall i | 0 <= i < |values|
      ensures |rows[i]| == size
    {
      ReadFixedCell(pf, child, size, values[i]);
    }
    FlatUniform(rows, size);
    var built := FixedRows(|values|, size, NullBuffer(values), ReadAll(pf, child, Flat(rows)).value);
    var read := ReadAll(pf, FixedListType(child, size), values).value;
    forall i | 0 <= i < |values|
      ensures built[i] == read[i]
    {
      ReadFixedCell(pf, child, size, values[i]);
      ReadAllRow(pf, child, rows, i);
      UniformStart(rows, size, i);
    }
    assert built == read;
  }

  /** The fixed-list column over a child column that holds the flattened elements. */
  lemma FixedBuilt(pf: Platform, child: Type, size: nat, values: seq<Cbor>, elements: Column)
    requires ReadAll(pf, FixedListType(child, size), values).Ok?
    requires ColumnOf(child, elements) && ReadAll(pf, child, Flat(FixedRowsOf(values, size))) == Ok(Cells(elements))
    ensures var col := FixedLists(|values|, size, NullBuffer(values), elements);
            && ColumnOf(FixedListType(child, size), col)
            && Cells(col) == ReadAll(pf, FixedListType(child, size), values).value
  {
    hide ReadAll, Flat, FixedRowsOf, FixedRows;
    FixedRead(pf, child, size, values);
  }

  lemma UniformStart<T>(rows: seq<seq<T>>, size: nat, i: nat)
    requires i < |rows|
    requires forall r | r in rows :: |r| == size
    ensures Starts(rows)[i] == i * size && Starts(rows)[i + 1] == i * size + size
    ensures i * size + size <= |rows| * size
  {
    FlatUniform(rows[..i], size);
    FlatNext(rows, i);
    RowWithin(i, |rows|, size);
  }

  // ---- Maps ----

  function KeyRows(rows: seq<seq<Entry>>): (r: seq<seq<Cbor>>)
    ensures |r| == |rows|
  {
    seq(|rows|, i requires 0 <= i < |rows| => KeysOf(rows[i]))
  }

  function ValRows(rows: seq<seq<Entry>>): (r: seq<seq<Cbor>>)
    ensures |r| == |rows|
  {
    seq(|rows|, i requires 0 <= i < |rows| => ValsOf(rows[i]))
  }

  lemma {:induction false} FlatEntries(rows: seq<seq<Entry>>)
    ensures Flat(KeyRows(rows)) == KeysOf(Flat(rows))
    ensures Flat(ValRows(rows)) == ValsOf(Flat(rows))
  {
    if |rows| > 0 {
      var n := |rows| - 1;
      FlatEntries(rows[..n]);
      assert KeyRows(rows)[..n] == KeyRows(rows[..n]);
      assert ValRows(rows)[..n] == ValRows(rows[..n]);
    }
  }

  lemma StartsEntries(rows: seq<seq<Entry>>)
    ensures Starts(KeyRows(rows)) == Starts(rows) && Starts(ValRows(rows)) == Starts(rows)
  {
    forall i | 0 <= i <= |rows|
      ensures Starts(KeyRows(rows))[i] == Starts(rows)[i] && Starts(ValRows(rows))[i] == Starts(rows)[i]
    {
      FlatEntries(rows[..i]);
      assert KeyRows(rows)[..i] == KeyRows(rows[..i]) && ValRows(rows)[..i] == ValRows(rows[..i]);
    }
  }

  /** A key slot is null when its value is, or when the key type holds nulls only. */
  predicate NullKey(key: Type, k: Cbor) {
    key.NullType? || IsNull(k)
  }

  lemma NotNullRead(pf: Platform, ty: Type, v: Cbor)
    ensures ReadCell(pf, ty, v) == Ok(NullCell) <==> NullKey(ty, v)
  {
  }

  lemma NullsRead(pf: Platform, ty: Type, vs: seq<Cbor>)
    requires ReadAll(pf, ty, vs).Ok?
    ensures NullCell in ReadAll(pf, ty, vs).value <==> exists v | v in vs :: NullKey(ty, v)
  {
    hide ReadCell, ReadAll;
    forall i | 0 <= i < |vs|
      ensures ReadAll(pf, ty, vs).value[i] == NullCell <==> NullKey(ty, vs[i])
    {
      NotNullRead(pf, ty, vs[i]);
    }
    if v :| v in vs && NullKey(ty, v) {
      var i :| 0 <= i < |vs| && vs[i] == v;
      assert ReadAll(pf, ty, vs).value[i] == NullCell;
    }
  }

  /** The keys and values of one map, and no null key. */
  ghost predicate EntriesReadable(pf: Platform, key: Type, val: Type, entries: seq<Entry>) {
    && Readable(pf, key, KeysOf(entries)) && Readable(pf, val, ValsOf(entries))
    && NoNullKey(key, KeysOf(entries))
  }

  ghost predicate NoNullKey(key: Type, keys: seq<Cbor>) {
    forall k | k in keys :: !NullKey(key, k)
  }

  /** Entries are readable when their keys and their values are and no key is null. */
  lemma EntriesRead(pf: Platform, key: Type, val: Type, entries: seq<Entry>)
    ensures EntriesReadable(pf, key, val, entries)
            <==> && ReadAll(pf, key, KeysOf(entries)).Ok? && ReadAll(pf, val, ValsOf(entries)).Ok?
                 && !exists k | k in KeysOf(entries) :: NullKey(key, k)
  {
    hide ReadAll, ReadCell, NullKey, KeysOf, ValsOf;
    assert (exists k | k in KeysOf(entries) :: NullKey(key, k)) <==> !NoNullKey(key, KeysOf(entries));
  }

  lemma ReadMapCell(pf: Platform, key: Type, val: Type, v: Cbor)
    ensures var r := ReadCell(pf, MapType(key, val), v);
            var entries := MapEntries(v);
            && (r.Ok? <==> (IsNull(v) || Content(v).Map?) && EntriesReadable(pf, key, val, entries))
            && (r.Ok? ==> r.value == if IsNull(v) then NullCell else
                            MapCell(Zip(ReadAll(pf, key, KeysOf(entries)).value,
                                        ReadAll(pf, val, ValsOf(entries)).value)))
  {
    hide *;
    if IsNull(v) {
      NullEntries(v);
      ReadNone(pf, key);
      ReadNone(pf, val);
      NullMapCell(pf, key, val, v);
    } else {
      EntriesRead(pf, key, val, MapEntries(v));
      if ReadAll(pf, key, KeysOf(MapEntries(v))).Ok? {
        NullsRead(pf, key, KeysOf(MapEntries(v)));
      }
      MapCellForm(pf, key, val, v);
    }
  }

  lemma NullEntries(v: Cbor)
    requires IsNull(v)
    ensures KeysOf(MapEntries(v)) == [] && ValsOf(MapEntries(v)) == []
  {
  }

  lemma NullMapCell(pf: Platform, key: Type, val: Type, v: Cbor)
    requires IsNull(v) && KeysOf(MapEntries(v)) == [] && ReadAll(pf, key, []).Ok?
    requires ValsOf(MapEntries(v)) == [] && ReadAll(pf, val, []).Ok?
    ensures ReadCell(pf, MapType(key, val), v) == Ok(NullCell) && EntriesReadable(pf, key, val, MapEntries(v))
  {
    hide ReadAll, MapEntries, KeysOf, ValsOf;
  }

  lemma MapCellForm(pf: Platform, key: Type, val: Type, v: Cbor)
    requires !IsNull(v)
    ensures var keys, vals := ReadAll(pf, key, KeysOf(MapEntries(v))), ReadAll(pf, val, ValsOf(MapEntries(v)));
            ReadCell(pf, MapType(key, val), v)
            == if Content(v).Map? && keys.Ok? && vals.Ok? && NullCell !in keys.value
               then Ok(MapCell(Zip(keys.value, vals.value))) else Refused
  {
    hide ReadAll, ReadScalar, KeysOf, ValsOf;
  }

  lemma EntriesFlat(pf: Platform, key: Type, val: Type, rows: seq<seq<Entry>>)
    ensures EntriesReadable(pf, key, val, Flat(rows))
            <==> forall i | 0 <= i < |rows| :: EntriesReadable(pf, key, val, rows[i])
  {
    hide Readable, Flat, NoNullKey, KeysOf, ValsOf;
    var keys, vals := KeyRows(rows), ValRows(rows);
    FlatEntries(rows);
    ReadAllFlat(pf, key, keys);
    ReadAllFlat(pf, val, vals);
    NullKeyFlat(key, keys);
    if EntriesReadable(pf, key, val, Flat(rows)) {
      forall i | 0 <= i < |rows|
        ensures EntriesReadable(pf, key, val, rows[i])
      {
        assert Readable(pf, key, keys[i]) && Readable(pf, val, vals[i]) && NoNullKey(key, keys[i]);
      }
    } else if forall i | 0 <= i < |rows| :: EntriesReadable(pf, key, val, rows[i]) {
      forall i | 0 <= i < |rows|
        ensures Readable(pf, key, keys[i]) && Readable(pf, val, vals[i]) && NoNullKey(key, keys[i])
      {
        assert EntriesReadable(pf, key, val, rows[i]);
      }
      assert false;
    }
  }

  lemma NullKeyFlat(key: Type, rows: seq<seq<Cbor>>)
    ensures NoNullKey(key, Flat(rows)) <==> forall i | 0 <= i < |rows| :: NoNullKey(key, rows[i])
  {
    hide NullKey, Flat;
    forall k | k in Flat(rows)
      ensures exists i | 0 <= i < |rows| :: k in rows[i]
    {
      FlatMember(rows, k);
    }
    forall i, k | 0 <= i < |rows| && k in rows[i]
      ensures k in Flat(rows)
    {
      FlatContains(rows, i, k);
    }
  }

  lemma MapsRefused(pf: Platform, key: Type, val: Type, values: seq<Cbor>)
    ensures ReadAll(pf, MapType(key, val), values).Ok?
            <==> (forall v | v in values :: IsNull(v) || Content(v).Map?)
                 && EntriesReadable(pf, key, val, Flat(EntryRows(values)))
  {
    hide ReadCell, ReadAll, Flat, EntriesReadable, NoNullKey;
    EntriesFlat(pf, key, val, EntryRows(values));
    forall i | 0 <= i < |values|
      ensures ReadCell(pf, MapType(key, val), values[i]).Ok?
              <==> (IsNull(values[i]) || Content(values[i]).Map?)
                   && EntriesReadable(pf, key, val, EntryRows(values)[i])
    {
      ReadMapCell(pf, key, val, values[i]);
    }
  }

  lemma MapsRead(pf: Platform, key: Type, val: Type, values: seq<Cbor>)
    requires ReadAll(pf, MapType(key, val), values).Ok?
    requires EntriesReadable(pf, key, val, Flat(EntryRows(values)))
    ensures var rows := EntryRows(values);
            && OffsetsFit(Starts(rows), |Flat(rows)|)
            && MapRows(Starts(rows), NullBuffer(values), ReadAll(pf, key, KeysOf(Flat(rows))).value,
                       ReadAll(pf, val, ValsOf(Flat(rows))).value)
               == ReadAll(pf, MapType(key, val), values).value
  {
    hide ReadCell, ReadAll, Flat;
    var rows := EntryRows(values);
    StartsFit(rows);
    FlatEntries(rows);
    StartsEntries(rows);
    var built := MapRows(Starts(rows), NullBuffer(values), ReadAll(pf, key, KeysOf(Flat(rows))).value,
                         ReadAll(pf, val, ValsOf(Flat(rows))).value);
    var read := ReadAll(pf, MapType(key, val), values).value;
    forall i | 0 <= i < |values|
      ensures built[i] == read[i]
    {
      ReadMapCell(pf, key, val, values[i]);
      ReadAllRow(pf, key, KeyRows(rows), i);
      ReadAllRow(pf, val, ValRows(rows), i);
    }
    assert built == read;
  }

  /** The map column over key and value columns that hold the flattened entries. */
  lemma MapsBuilt(pf: Platform, key: Type, val: Type, values: seq<Cbor>, keys: Column, vals: Column)
    requires ReadAll(pf, MapType(key, val), values).Ok? && EntriesReadable(pf, key, val, Flat(EntryRows(values)))
    requires ColumnOf(key, keys) && ReadAll(pf, key, KeysOf(Flat(EntryRows(values)))) == Ok(Cells(keys))
    requires ColumnOf(val, vals) && ReadAll(pf, val, ValsOf(Flat(EntryRows(values)))) == Ok(Cells(vals))
    ensures var col := Maps(Starts(EntryRows(values)), NullBuffer(values), keys, vals);
            ColumnOf(MapType(key, val), col) && Cells(col) == ReadAll(pf, MapType(key, val), values).value
  {
    hide ReadAll, ReadCell, Flat, Starts, MapRows, KeysOf, ValsOf, NullKey;
    var entries := Flat(EntryRows(values));
    NullsRead(pf, key, KeysOf(entries));
    MapsRead(pf, key, val, values);
  }

  // ---- Structs ----

  /** Every field of one row can be read. */
  ghost predicate FieldsReadable(pf: Platform, fields: seq<Field>, v: Cbor) {
    forall j | 0 <= j < |fields| :: ReadCell(pf, fields[j].ty, FieldOf(v, fields[j].name)).Ok?
  }

  lemma ReadStructCell(pf: Platform, fields: seq<Field>, v: Cbor)
    ensures var r := ReadCell(pf, StructType(fields), v);
            && (r.Ok? <==> (IsNull(v) || Content(v).Map?) && FieldsReadable(pf, fields, v))
            && (r.Ok? && IsNull(v) ==> r.value == NullCell)
            && (r.Ok? && !IsNull(v) ==>
                  && r.value.StructCell? && |r.value.parts| == |fields|
                  && forall j | 0 <= j < |fields| ::
                       r.value.parts[j] == ReadCell(pf, fields[j].ty, FieldOf(v, fields[j].name)).value)
  {
    hide ReadScalar;
  }

  lemma StructsRefused(pf: Platform, fields: seq<Field>, values: seq<Cbor>)
    ensures ReadAll(pf, StructType(fields), values).Ok?
            <==> (forall v | v in values :: IsNull(v) || Content(v).Map?)
                 && (forall j | 0 <= j < |fields| ::
                       ReadAll(pf, fields[j].ty, FieldRows(values, fields[j].name)).Ok?)
  {
    hide ReadCell, ReadAll;
    forall i | 0 <= i < |values|
      ensures ReadCell(pf, StructType(fields), values[i]).Ok?
              <==> (IsNull(values[i]) || Content(values[i]).Map?) && FieldsReadable(pf, fields, values[i])
    {
      ReadStructCell(pf, fields, values[i]);
    }
    forall j | 0 <= j < |fields|
      ensures ReadAll(pf, fields[j].ty, FieldRows(values, fields[j].name)).Ok?
              <==> forall i | 0 <= i < |values| ::
                     ReadCell(pf, fields[j].ty, FieldOf(values[i], fields[j].name)).Ok?
    {
      var rows := FieldRows(values, fields[j].name);
      assert forall i | 0 <= i < |values| :: rows[i] == FieldOf(values[i], fields[j].name);
    }
  }

  /** The column holds what the values mean. */
  ghost predicate Holds(pf: Platform, ty: Type, values: seq<Cbor>, col: Column) {
    ColumnOf(ty, col) && ReadAll(pf, ty, values) == Ok(Cells(col))
  }

  lemma StructsRead(pf: Platform, fields: seq<Field>, values: seq<Cbor>, columns: seq<Column>)
    requires ReadAll(pf, StructType(fields), values).Ok?
    requires |columns| == |fields|
    requires forall j | 0 <= j < |fields| :: Holds(pf, fields[j].ty, FieldRows(values, fields[j].name), columns[j])
    ensures var col := Structs(|values|, NullBuffer(values), columns);
            ColumnOf(StructType(fields), col) && Cells(col) == ReadAll(pf, StructType(fields), values).value
  {
    hide ReadCell, ReadAll, Cells, LayoutOk, ColumnOf;
    ColumnsFit(fields, columns);
    assert forall c | c in columns :: LayoutOk(c) && Len(c) == |values| by {
      forall j | 0 <= j < |columns|
        ensures LayoutOk(columns[j]) && Len(columns[j]) == |values|
      {
        assert Holds(pf, fields[j].ty, FieldRows(values, fields[j].name), columns[j]);
        ColumnLayout(fields[j].ty, columns[j]);
      }
    }
    StructColumn(fields, |values|, NullBuffer(values), columns);
    var col := Structs(|values|, NullBuffer(values), columns);
    var read := ReadAll(pf, StructType(fields), values).value;
    forall i | 0 <= i < |values|
      ensures Cells(col)[i] == read[i]
    {
      ReadStructCell(pf, fields, values[i]);
      if !IsNull(values[i]) {
        forall j | 0 <= j < |fields|
          ensures Cells(columns[j])[i] == read[i].parts[j]
        {
          assert Holds(pf, fields[j].ty, FieldRows(values, fields[j].name), columns[j]);
          assert FieldRows(values, fields[j].name)[i] == FieldOf(values[i], fields[j].name);
        }
        assert Cells(col)[i].parts == read[i].parts;
      }
    }
    assert Cells(col) == read;
  }

  lemma ColumnLayout(ty: Type, col: Column)
    requires ColumnOf(ty, col)
    ensures LayoutOk(col)
  {
  }

  lemma {:induction false} ColumnsFit(fields: seq<Field>, columns: seq<Column>)
    requires |columns| == |fields|
    requires forall j | 0 <= j < |fields| :: ColumnOf(fields[j].ty, columns[j])
    ensures ColumnsOf(fields, columns)
    decreases |fields|
  {
    hide ColumnOf;
    if |fields| > 0 {
      ColumnsFit(fields[1..], columns[1..]);
    }
  }

  /** The rows of a struct column. */
  lemma StructColumn(fields: seq<Field>, len: nat, nulls: Mask, columns: seq<Column>)
    requires ColumnsOf(fields, columns) && MaskFits(nulls, len)
    requires forall c | c in columns :: LayoutOk(c) && Len(c) == len
    ensures var col := Structs(len, nulls, columns);
            && ColumnOf(StructType(fields), col)
            && forall i | 0 <= i < len ::
                 Cells(col)[i] == if IsValid(nulls, i)
                                  then StructCell(seq(|columns|, j requires 0 <= j < |columns| => Cells(columns[j])[i]))
                                  else NullCell
  {
  }

  // ---- Columns ----

  /** `build_column`: it succeeds exactly when every value can be read on its own, and the column then holds, row by
      row, the cells those values mean. */
  method BuildColumn(pf: Platform, ty: Type, values: seq<Cbor>) returns (r: Outcome<Column>)
    ensures r.Ok? <==> ReadAll(pf, ty, values).Ok?
    ensures r.Ok? ==> ColumnOf(ty, r.value) && Cells(r.value) == ReadAll(pf, ty, values).value
    decreases ty, 1
  {
    if ty.ListType? {
      r := BuildLists(pf, ty.child, values);
    } else if ty.FixedListType? {
      r := BuildFixedLists(pf, ty.child, ty.size, values);
    } else if ty.StructType? {
      r := BuildStructs(pf, ty.fields, values);
    } else if ty.MapType? {
      r := BuildMaps(pf, ty.key, ty.val, values);
    } else {
      r := BuildSlots(pf, ty, values);
    }
  }

  method BuildLists(pf: Platform, child: Type, values: seq<Cbor>) returns (r: Outcome<Column>)
    ensures r.Ok? <==> ReadAll(pf, ListType(child), values).Ok?
    ensures r.Ok? ==> ColumnOf(ListType(child), r.value)
                      && Cells(r.value) == ReadAll(pf, ListType(child), values).value
    decreases child, 2
  {
    hide *;
    var flattened := FlattenLists(values);
    ListsRefused(pf, child, values);
    if flattened.Refused? {
      return Refused;
    }
    var (offsets, flat) := flattened.value;
    var children := BuildColumn(pf, child, flat);
    if children.Refused? {
      return Refused;
    }
    ListsBuilt(pf, child, values, children.value);
    return Ok(Lists(offsets, NullBuffer(values), children.value));
  }

  method BuildFixedLists(pf: Platform, child: Type, size: nat, values: seq<Cbor>) returns (r: Outcome<Column>)
    ensures r.Ok? <==> ReadAll(pf, FixedListType(child, size), values).Ok?
    ensures r.Ok? ==> ColumnOf(FixedListType(child, size), r.value)
                      && Cells(r.value) == ReadAll(pf, FixedListType(child, size), values).value
    decreases child, 2
  {
    hide *;
    var flattened := FlattenFixed(values, size);
    FixedRefused(pf, child, size, values);
    if flattened.Refused? {
      return Refused;
    }
    var children := BuildColumn(pf, child, flattened.value);
    if children.Refused? {
      return Refused;
    }
    FixedBuilt(pf, child, size, values, children.value);
    return Ok(FixedLists(|values|, size, NullBuffer(values), children.value));
  }

  method BuildMaps(pf: Platform, key: Type, val: Type, values: seq<Cbor>) returns (r: Outcome<Column>)
    ensures r.Ok? <==> ReadAll(pf, MapType(key, val), values).Ok?
    ensures r.Ok? ==> ColumnOf(MapType(key, val), r.value)
                      && Cells(r.value) == ReadAll(pf, MapType(key, val), values).value
    decreases MapType(key, val), 0
  {
    hide *;
    var flattened := FlattenMaps(values);
    MapsRefused(pf, key, val, values);
    EntriesRead(pf, key, val, Flat(EntryRows(values)));
    if flattened.Refused? {
      return Refused;
    }
    var (offsets, keys, vals) := flattened.value;
    var keyColumn := BuildColumn(pf, key, keys);
    if keyColumn.Refused? {
      return Refused;
    }
    var valColumn := BuildColumn(pf, val, vals);
    if valColumn.Refused? {
      return Refused;
    }
    var hasNullKey := HasNull(key, keys);
    if hasNullKey {
      return Refused;
    }
    MapsBuilt(pf, key, val, values, keyColumn.value, valColumn.value);
    return Ok(Maps(offsets, NullBuffer(values), keyColumn.value, valColumn.value));
  }

  /** The entry struct refuses null keys. */
  method HasNull(key: Type, keys: seq<Cbor>) returns (b: bool)
    ensures b <==> exists k | k in keys :: NullKey(key, k)
  {
    for i := 0 to |keys|
      invariant forall j | 0 <= j < i :: !NullKey(key, keys[j])
    {
      if key.NullType? || IsNull(keys[i]) {
        assert NullKey(key, keys[i]);
        return true;
      }
    }
    return false;
  }

  method BuildStructs(pf: Platform, fields: seq<Field>, values: seq<Cbor>) returns (r: Outcome<Column>)
    ensures r.Ok? <==> ReadAll(pf, StructType(fields), values).Ok?
    ensures r.Ok? ==> ColumnOf(StructType(fields), r.value)
                      && Cells(r.value) == ReadAll(pf, StructType(fields), values).value
    decreases fields, 2
  {
    hide ReadCell, ReadAll, ColumnOf, Cells, LayoutOk, FieldRows, NullBuffer, Content, IsNull;
    StructsRefused(pf, fields, values);
    var columns: seq<Column> := [];
    for k := 0 to |fields|
      invariant |columns| == k
      invariant forall j | 0 <= j < k ::
          Holds(pf, fields[j].ty, FieldRows(values, fields[j].name), columns[j])
    {
      assert fields[k] in fields && fields[k].ty < fields[k];
      var column := BuildColumn(pf, fields[k].ty, FieldRows(values, fields[k].name));
      if column.Refused? {
        return Refused;
      }
      columns := columns + [column.value];
    }
    for i := 0 to |values|
      invariant forall j | 0 <= j < i :: IsNull(values[j]) || Content(values[j]).Map?
    {
      if !IsNull(values[i]) && !Content(values[i]).Map? {
        return Refused;
      }
    }
    StructsRead(pf, fields, values, columns);
    return Ok(Structs(|values|, NullBuffer(values), columns));
  }
}
