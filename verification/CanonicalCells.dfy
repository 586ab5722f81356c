/** A cell written, canonicalized and read back: only the entry order inside MAP cells may change. */
module CanonicalCells {
  import opened Base
  import opened Values
  import opened Bignum
  import opened Exact
  import opened Canonical
  import opened Columns
  import opened ReadCells
  import opened ValueIn
  import opened RoundTrip

  // ---- Cells equal up to the order of MAP entries ----

  ghost predicate SameCell(a: Cell, b: Cell)
    decreases a, 0
  {
    match a
    case ListCell(items) => b.ListCell? && SameCells(items, b.items)
    case StructCell(parts) => b.StructCell? && SameCells(parts, b.parts)
    case MapCell(pairs) => b.MapCell? && SamePairs(pairs, b.pairs)
    case _ => a == b
  }

  ghost predicate SameCells(xs: seq<Cell>, ys: seq<Cell>)
    decreases xs, 0
  {
    |xs| == |ys| && forall i | 0 <= i < |xs| :: SameCell(xs[i], ys[i])
  }

  ghost predicate SamePairs(xs: seq<Pair>, ys: seq<Pair>)
    decreases xs, 0
  {
    && |xs| == |ys|
    && (|xs| > 0 ==> exists j | 0 <= j < |ys| :: SamePair(xs[0], ys[j]) && SamePairs(xs[1..], ys[..j] + ys[j + 1..]))
  }

  ghost predicate SamePair(x: Pair, y: Pair)
    decreases x, 0
  {
    SameCell(x.key, y.key) && SameCell(x.val, y.val)
  }

  // ---- Scalars hold no map ----

  lemma ScalarUnchanged(pf: Platform, ty: Type, c: Cell, mode: Canon)
    requires !c.ListCell? && !c.StructCell? && !c.MapCell?
    ensures Canonicalize(WriteCell(pf, ty, c), mode) == WriteCell(pf, ty, c)
  {
    hide ToValue, Pow10, TruncDiv;
    if c.NumCell? && InRange(ty, c.n) {
      if ty.DecimalType? {
        FractionUnchanged(-(ty.scale as int), c.n, mode);
      } else if ty.TimestampType? {
        TimestampUnchanged(ty.unit, c.n, mode);
      }
    }
  }

  lemma TimestampUnchanged(unit: TimeUnit, n: I64, mode: Canon)
    ensures Canonicalize(WriteTimestamp(unit, n), mode) == WriteTimestamp(unit, n)
  {
    hide ToValue, Pow10, TruncDiv, Fraction;
    FractionUnchanged(0 - Digits(unit), n, mode);
  }

  lemma FractionUnchanged(exponent: CborInt, n: I128, mode: Canon)
    ensures Canonicalize(Fraction(exponent, n), mode) == Fraction(exponent, n)
  {
    hide ToValue, CanonEntries, SortEntries;
    BignumUnchanged(n, mode);
    var parts := [Integer(exponent), ToValue(n)];
    assert CanonAll(parts, mode)[0] == parts[0] && CanonAll(parts, mode)[1] == parts[1];
  }

  lemma BignumUnchanged(n: I128, mode: Canon)
    ensures Canonicalize(ToValue(n), mode) == ToValue(n)
  {
    hide TrimBE, BE;
  }

  // ---- Looking up fields in a sorted map ----

  /** Every key is a text, and no two entries share one. */
  ghost predicate DistinctTexts(entries: seq<Entry>) {
    && (forall e | e in entries :: e.key.Text?)
    && (forall x, y | x in entries && y in entries :: x.key == y.key ==> x == y)
  }

  lemma {:induction false} LookupPresent(entries: seq<Entry>, e: Entry)
    requires DistinctTexts(entries) && e in entries
    ensures Lookup(entries, e.key.s) == e.val
  {
    assert entries[0] in entries;
    if entries[0].key != e.key {
      LookupPresent(entries[1..], e);
    }
  }

  lemma FieldAfterSort(entries: seq<Entry>, j: nat, mode: Canon)
    requires j < |entries| && DistinctTexts(entries)
    ensures Lookup(SortEntries(mode, entries), entries[j].key.s) == entries[j].val
  {
    hide Lookup, EntryLeq;
    var sorted := SortEntries(mode, entries);
    SameMembers(sorted, entries);
    LookupPresent(sorted, entries[j]);
  }

  /** The canonicalized entries of a STRUCT, before they are sorted. */
  function CanonParts(pf: Platform, fields: seq<Field>, parts: seq<Cell>, mode: Canon): (r: seq<Entry>)
    requires |parts| == |fields|
    ensures |r| == |fields|
  {
    CanonEntries(WriteParts(pf, fields, parts), mode)
  }

  lemma CanonPart(pf: Platform, fields: seq<Field>, parts: seq<Cell>, mode: Canon, i: nat)
    requires i < |parts| == |fields|
    ensures CanonParts(pf, fields, parts, mode)[i]
            == Entry(Text(fields[i].name), Canonicalize(WriteCell(pf, fields[i].ty, parts[i]), mode))
  {
    hide WriteCell;
    assert Canonicalize(Text(fields[i].name), mode) == Text(fields[i].name);
  }

  lemma PartsDistinct(pf: Platform, fields: seq<Field>, parts: seq<Cell>, mode: Canon)
    requires DistinctNames(fields) && |parts| == |fields|
    ensures DistinctTexts(CanonParts(pf, fields, parts, mode))
  {
    hide WriteCell, CanonParts, Canonicalize;
    var entries := CanonParts(pf, fields, parts, mode);
    forall i | 0 <= i < |entries|
      ensures entries[i].key == Text(fields[i].name)
    {
      CanonPart(pf, fields, parts, mode, i);
    }
  }

  // ---- Cells ----

  /** The cell read back from the canonical form of what was written. */
  ghost function Reread(pf: Platform, ty: Type, c: Cell, mode: Canon): Outcome<Cell> {
    ReadCell(pf, ty, Canonicalize(WriteCell(pf, ty, c), mode))
  }

  ghost predicate KeptReordered(pf: Platform, ty: Type, c: Cell, mode: Canon) {
    var r := Reread(pf, ty, c, mode);
    r.Ok? && SameCell(Kept(pf, ty, c), r.value)
  }

  lemma ScalarReread(pf: Platform, ty: Type, c: Cell, mode: Canon)
    requires HasType(ty, c) && WellFormed(ty)
    requires !c.ListCell? && !c.StructCell? && !c.MapCell?
    ensures KeptReordered(pf, ty, c, mode)
  {
    hide ReadCell, WriteCell, Canonicalize;
    ScalarUnchanged(pf, ty, c, mode);
    CellRoundTrip(pf, Direct, ty, c);
  }

  lemma ListForm(pf: Platform, ty: Type, items: seq<Cell>, mode: Canon)
    requires HasType(ty, ListCell(items))
    requires ReadAll(pf, ty.child, CanonAll(WriteAll(pf, ty.child, items), mode)).Ok?
    ensures Reread(pf, ty, ListCell(items), mode)
            == Ok(ListCell(ReadAll(pf, ty.child, CanonAll(WriteAll(pf, ty.child, items), mode)).value))
    ensures Kept(pf, ty, ListCell(items)) == ListCell(KeptAll(pf, ty.child, items))
  {
    hide KeptAll, WriteAll, ReadAll, ReadScalar, CanonAll;
  }

  lemma ListReread(pf: Platform, ty: Type, items: seq<Cell>, mode: Canon)
    requires (ty.ListType? || ty.FixedListType?) && HasType(ty, ListCell(items))
    requires forall x | x in items :: KeptReordered(pf, ty.child, x, mode)
    ensures KeptReordered(pf, ty, ListCell(items), mode)
  {
    hide Kept, KeptAll, WriteCell, WriteAll, ReadCell, ReadAll, HasType, Canonicalize, CanonAll;
    var vs := CanonAll(WriteAll(pf, ty.child, items), mode);
    forall i | 0 <= i < |items|
      ensures ReadCell(pf, ty.child, vs[i]).Ok?
              && SameCell(Kept(pf, ty.child, items[i]), ReadCell(pf, ty.child, vs[i]).value)
    {
      assert KeptReordered(pf, ty.child, items[i], mode);
    }
    ListForm(pf, ty, items, mode);
    SameItems(KeptAll(pf, ty.child, items), ReadAll(pf, ty.child, vs).value);
  }

  lemma SameItems(xs: seq<Cell>, ys: seq<Cell>)
    requires |xs| == |ys| && forall i | 0 <= i < |xs| :: SameCell(xs[i], ys[i])
    ensures SameCell(ListCell(xs), ListCell(ys)) && SameCell(StructCell(xs), StructCell(ys))
  {
  }

  function StructEntriesSent(pf: Platform, fields: seq<Field>, parts: seq<Cell>, mode: Canon): seq<Entry>
    requires |parts| == |fields|
  {
    SortEntries(mode, CanonParts(pf, fields, parts, mode))
  }

  lemma StructForm(pf: Platform, fields: seq<Field>, parts: seq<Cell>, mode: Canon)
    requires |parts| == |fields|
    requires ReadFields(pf, fields, StructEntriesSent(pf, fields, parts, mode)).Ok?
    ensures Reread(pf, StructType(fields), StructCell(parts), mode)
            == Ok(StructCell(ReadFields(pf, fields, StructEntriesSent(pf, fields, parts, mode)).value))
    ensures Kept(pf, StructType(fields), StructCell(parts)) == StructCell(KeptParts(pf, fields, parts))
  {
    hide KeptParts, WriteParts, ReadFields, ReadScalar, SortEntries, CanonEntries;
  }

  /** What the reader finds under a field's name. */
  lemma FieldSent(pf: Platform, fields: seq<Field>, parts: seq<Cell>, mode: Canon, j: nat)
    requires DistinctNames(fields) && j < |parts| == |fields|
    ensures Lookup(StructEntriesSent(pf, fields, parts, mode), fields[j].name)
            == Canonicalize(WriteCell(pf, fields[j].ty, parts[j]), mode)
  {
    hide Lookup, SortEntries, CanonParts, Canonicalize, WriteCell, DistinctTexts;
    PartsDistinct(pf, fields, parts, mode);
    CanonPart(pf, fields, parts, mode, j);
    FieldAfterSort(CanonParts(pf, fields, parts, mode), j, mode);
  }

  lemma StructReread(pf: Platform, fields: seq<Field>, parts: seq<Cell>, mode: Canon)
    requires DistinctNames(fields) && |parts| == |fields|
    requires forall j | 0 <= j < |fields| :: KeptReordered(pf, fields[j].ty, parts[j], mode)
    ensures KeptReordered(pf, StructType(fields), StructCell(parts), mode)
  {
    hide Kept, KeptParts, WriteCell, ReadCell, ReadFields, Canonicalize, StructEntriesSent, SameCell, DistinctNames;
    forall j | 0 <= j < |fields|
      ensures var v := Lookup(StructEntriesSent(pf, fields, parts, mode), fields[j].name);
              ReadCell(pf, fields[j].ty, v).Ok?
              && SameCell(Kept(pf, fields[j].ty, parts[j]), ReadCell(pf, fields[j].ty, v).value)
    {
      FieldSent(pf, fields, parts, mode, j);
    }
    StructForm(pf, fields, parts, mode);
    SameItems(KeptParts(pf, fields, parts), ReadFields(pf, fields, StructEntriesSent(pf, fields, parts, mode)).value);
  }

  // ---- MAP entries ----

  /** The entry is read as a pair with a key. */
  predicate PairReadable(pf: Platform, ty: Type, e: Entry)
    requires ty.MapType?
  {
    var key := ReadCell(pf, ty.key, e.key);
    key.Ok? && key.value != NullCell && ReadCell(pf, ty.val, e.val).Ok?
  }

  function PairsRead(pf: Platform, ty: Type, entries: seq<Entry>): (r: seq<Pair>)
    requires ty.MapType? && forall e | e in entries :: PairReadable(pf, ty, e)
    ensures |r| == |entries|
  {
    seq(|entries|, i requires 0 <= i < |entries| =>
      assert PairReadable(pf, ty, entries[i]);
      Pair(ReadCell(pf, ty.key, entries[i].key).value, ReadCell(pf, ty.val, entries[i].val).value))
  }

  function PairEntries(pf: Platform, ty: Type, pairs: seq<Pair>, mode: Canon): (r: seq<Entry>)
    requires ty.MapType?
    ensures |r| == |pairs|
  {
    CanonEntries(WritePairs(pf, ty, pairs), mode)
  }

  ghost predicate PairKept(pf: Platform, ty: Type, p: Pair, mode: Canon)
    requires ty.MapType?
  {
    KeptReordered(pf, ty.key, p.key, mode) && KeptReordered(pf, ty.val, p.val, mode) && p.key != NullCell
  }

  lemma PairEntriesFirst(pf: Platform, ty: Type, pairs: seq<Pair>, mode: Canon)
    requires ty.MapType? && |pairs| > 0
    ensures var e := Entry(Canonicalize(WriteCell(pf, ty.key, pairs[0].key), mode),
                           Canonicalize(WriteCell(pf, ty.val, pairs[0].val), mode));
            PairEntries(pf, ty, pairs, mode) == [e] + PairEntries(pf, ty, pairs[1..], mode)
  {
    hide WriteCell, Canonicalize;
  }

  lemma SortFirst(mode: Canon, e: Entry, rest: seq<Entry>) returns (j: nat)
    ensures var sorted, sorted' := SortEntries(mode, [e] + rest), SortEntries(mode, rest);
            j < |sorted| && sorted[j] == e && Without(sorted, j) == sorted'
  {
    hide EntryLeq, Without;
    assert ([e] + rest)[1..] == rest;
    j := InsertedAt(mode, e, SortEntries(mode, rest));
  }

  /** A pair read as such is the written pair, kept. */
  lemma FirstPair(pf: Platform, ty: Type, p: Pair, mode: Canon)
    requires ty.MapType? && PairKept(pf, ty, p, mode)
    ensures var e := Entry(Canonicalize(WriteCell(pf, ty.key, p.key), mode),
                           Canonicalize(WriteCell(pf, ty.val, p.val), mode));
            && PairReadable(pf, ty, e)
            && SamePair(Pair(Kept(pf, ty.key, p.key), Kept(pf, ty.val, p.val)), PairsRead(pf, ty, [e])[0])
  {
    hide ReadCell, WriteCell, Canonicalize, Kept;
    var read := Reread(pf, ty.key, p.key, mode).value;
    assert SameCell(Kept(pf, ty.key, p.key), read);
  }

  /** Taking one entry out of the list takes its pair out of the pairs. */
  lemma PairsWithout(pf: Platform, ty: Type, entries: seq<Entry>, j: nat)
    requires ty.MapType? && j < |entries|
    requires PairReadable(pf, ty, entries[j]) && forall e | e in Without(entries, j) :: PairReadable(pf, ty, e)
    ensures forall e | e in entries :: PairReadable(pf, ty, e)
    ensures var pairs := PairsRead(pf, ty, entries);
            && pairs[j] == PairsRead(pf, ty, [entries[j]])[0]
            && pairs[..j] + pairs[j + 1..] == PairsRead(pf, ty, Without(entries, j))
  {
    hide PairReadable;
    forall e | e in entries
      ensures PairReadable(pf, ty, e)
    {
      var i :| 0 <= i < |entries| && entries[i] == e;
      assert i < j ==> e == Without(entries, j)[i];
      assert i > j ==> e == Without(entries, j)[i - 1];
    }
  }

  /** The pairs read from the sorted entries are the written pairs, kept, in some order. */
  lemma {:induction false} PairsReread(pf: Platform, ty: Type, pairs: seq<Pair>, mode: Canon)
    requires ty.MapType? && forall p | p in pairs :: PairKept(pf, ty, p, mode)
    ensures var sorted := SortEntries(mode, PairEntries(pf, ty, pairs, mode));
            && (forall e | e in sorted :: PairReadable(pf, ty, e))
            && SamePairs(KeptPairs(pf, ty, pairs), PairsRead(pf, ty, sorted))
    decreases |pairs|
  {
    hide *;
    if |pairs| == 0 {
      NoPairs(pf, ty, pairs, mode);
    } else {
      var rest := pairs[1..];
      assert PairKept(pf, ty, pairs[0], mode);
      PairsReread(pf, ty, rest, mode);
      PairEntriesFirst(pf, ty, pairs, mode);
      FirstPair(pf, ty, pairs[0], mode);
      var e := PairEntries(pf, ty, pairs, mode)[0];
      var j := SortFirst(mode, e, PairEntries(pf, ty, rest, mode));
      var sorted := SortEntries(mode, PairEntries(pf, ty, pairs, mode));
      PairsWithout(pf, ty, sorted, j);
      KeptPairsFirst(pf, ty, pairs);
      SamePairsAt(KeptPairs(pf, ty, pairs), PairsRead(pf, ty, sorted), j);
    }
  }

  lemma NoPairs(pf: Platform, ty: Type, pairs: seq<Pair>, mode: Canon)
    requires ty.MapType? && |pairs| == 0
    ensures SortEntries(mode, PairEntries(pf, ty, pairs, mode)) == []
    ensures SamePairs(KeptPairs(pf, ty, pairs), PairsRead(pf, ty, []))
  {
  }

  lemma KeptPairsFirst(pf: Platform, ty: Type, pairs: seq<Pair>)
    requires ty.MapType? && |pairs| > 0
    ensures KeptPairs(pf, ty, pairs)[0] == Pair(Kept(pf, ty.key, pairs[0].key), Kept(pf, ty.val, pairs[0].val))
    ensures KeptPairs(pf, ty, pairs)[1..] == KeptPairs(pf, ty, pairs[1..])
  {
    hide Kept;
  }

  lemma SamePairsAt(xs: seq<Pair>, ys: seq<Pair>, j: nat)
    requires |xs| == |ys| > 0 && j < |ys|
    requires SamePair(xs[0], ys[j]) && SamePairs(xs[1..], ys[..j] + ys[j + 1..])
    ensures SamePairs(xs, ys)
  {
  }

  lemma MapForm(pf: Platform, ty: Type, pairs: seq<Pair>, mode: Canon)
    requires ty.MapType?
    requires forall e | e in SortEntries(mode, PairEntries(pf, ty, pairs, mode)) :: PairReadable(pf, ty, e)
    ensures Reread(pf, ty, MapCell(pairs), mode)
            == Ok(MapCell(PairsRead(pf, ty, SortEntries(mode, PairEntries(pf, ty, pairs, mode)))))
    ensures Kept(pf, ty, MapCell(pairs)) == MapCell(KeptPairs(pf, ty, pairs))
  {
    hide KeptPairs, WritePairs, ReadAll, ReadScalar, SortEntries, CanonEntries;
    var sorted := SortEntries(mode, PairEntries(pf, ty, pairs, mode));
    MapEntriesRead(pf, ty, sorted);
  }

  lemma MapEntriesRead(pf: Platform, ty: Type, entries: seq<Entry>)
    requires ty.MapType? && forall e | e in entries :: PairReadable(pf, ty, e)
    ensures ReadCell(pf, ty, Map(entries)) == Ok(MapCell(PairsRead(pf, ty, entries)))
  {
    hide ReadAll, ReadScalar;
    forall i | 0 <= i < |entries|
      ensures ReadCell(pf, ty.key, KeysOf(entries)[i]).Ok? && ReadCell(pf, ty.val, ValsOf(entries)[i]).Ok?
      ensures ReadCell(pf, ty.key, KeysOf(entries)[i]).value != NullCell
    {
      assert PairReadable(pf, ty, entries[i]);
    }
    var keys, vals := ReadAll(pf, ty.key, KeysOf(entries)).value, ReadAll(pf, ty.val, ValsOf(entries)).value;
    assert Zip(keys, vals) == PairsRead(pf, ty, entries);
  }

  // ---- Any cell ----

  /** For every column type nested to any depth with distinct STRUCT names: a cell written, canonicalized in either
      mode and read back is the cell that plain writing keeps, up to the order of the entries of its MAP cells. */
  lemma {:induction false} CanonicalRoundTrip(pf: Platform, ty: Type, c: Cell, mode: Canon)
    requires HasType(ty, c) && WellFormed(ty)
    ensures KeptReordered(pf, ty, c, mode)
    decreases ty, 2
  {
    hide KeptReordered, DistinctNames;
    if c.ListCell? {
      forall x | x in c.items
        ensures KeptReordered(pf, ty.child, x, mode)
      {
        CanonicalRoundTrip(pf, ty.child, x, mode);
      }
      ListReread(pf, ty, c.items, mode);
    } else if c.StructCell? {
      forall j | 0 <= j < |ty.fields|
        ensures KeptReordered(pf, ty.fields[j].ty, c.parts[j], mode)
      {
        HaveTypesAt(ty.fields, c.parts, j);
        assert ty.fields[j] in ty.fields && ty.fields[j].ty < ty.fields[j];
        CanonicalRoundTrip(pf, ty.fields[j].ty, c.parts[j], mode);
      }
      StructReread(pf, ty.fields, c.parts, mode);
    } else if c.MapCell? {
      forall p | p in c.pairs
        ensures PairKept(pf, ty, p, mode)
      {
        CanonicalRoundTrip(pf, ty.key, p.key, mode);
        CanonicalRoundTrip(pf, ty.val, p.val, mode);
      }
      MapReread(pf, ty, c.pairs, mode);
    } else {
      ScalarReread(pf, ty, c, mode);
    }
  }

  lemma MapReread(pf: Platform, ty: Type, pairs: seq<Pair>, mode: Canon)
    requires ty.MapType? && forall p | p in pairs :: PairKept(pf, ty, p, mode)
    ensures KeptReordered(pf, ty, MapCell(pairs), mode)
  {
    hide Kept, Reread, PairKept, SamePairs;
    PairsReread(pf, ty, pairs, mode);
    MapForm(pf, ty, pairs, mode);
  }
}
