/** Files written with a canonical mode: tables that are equal up to the order of MAP entries give the same bytes,
    exactly when no MAP has two entries that are written under one key without being written the same. */
module CanonicalTables {
  import opened Base
  import opened Values
  import opened Bignum
  import opened Exact
  import opened Framing
  import opened ItemCodec
  import opened Canonical
  import opened CanonicalBytes
  import opened Columns
  import opened ValueIn
  import opened RoundTrip
  import opened CanonicalCells
  import opened Rows
  import opened CopyFrom
  import opened CopyTo
  import opened CopyRoundTrip

  // ---- Same cells are written as reordered values ----

  lemma {:induction false} SameWritten(pf: Platform, ty: Type, a: Cell, b: Cell)
    requires SameCell(a, b)
    ensures Reordered(WriteCell(pf, ty, a), WriteCell(pf, ty, b))
    decreases a, 1
  {
    hide WriteAll, WriteParts, WritePairs, WriteNumber, ReorderedAll, ReorderedEntries, SamePairs;
    if a.ListCell? && (ty.ListType? || ty.FixedListType?) {
      forall i | 0 <= i < |a.items|
        ensures Reordered(WriteCell(pf, ty.child, a.items[i]), WriteCell(pf, ty.child, b.items[i]))
      {
        SameWritten(pf, ty.child, a.items[i], b.items[i]);
      }
      Aligned(WriteAll(pf, ty.child, a.items), WriteAll(pf, ty.child, b.items));
    } else if a.StructCell? && ty.StructType? && |a.parts| == |ty.fields| {
      PartsWritten(pf, ty.fields, a.parts, b.parts);
    } else if a.MapCell? && ty.MapType? {
      PairsWritten(pf, ty, a.pairs, b.pairs);
    } else {
      ReorderedSelf(WriteCell(pf, ty, a));
    }
  }

  lemma {:induction false} PartsWritten(pf: Platform, fields: seq<Field>, xs: seq<Cell>, ys: seq<Cell>)
    requires |xs| == |fields| && SameCells(xs, ys)
    ensures ReorderedEntries(WriteParts(pf, fields, xs), WriteParts(pf, fields, ys))
    decreases xs, 2
  {
    hide WriteCell, WriteParts, Reordered, SameCell;
    var a, b := WriteParts(pf, fields, xs), WriteParts(pf, fields, ys);
    forall i | 0 <= i < |xs|
      ensures ReorderedEntry(a[i], b[i])
    {
      SameWritten(pf, fields[i].ty, xs[i], ys[i]);
      ReorderedSelf(Text(fields[i].name));
    }
    AlignedEntries(a, b);
  }

  lemma {:induction false} PairsWritten(pf: Platform, ty: Type, xs: seq<Pair>, ys: seq<Pair>)
    requires ty.MapType? && SamePairs(xs, ys)
    ensures ReorderedEntries(WritePairs(pf, ty, xs), WritePairs(pf, ty, ys))
    decreases xs, 0
  {
    hide WriteCell, SamePair, WritePairs, ReorderedEntry, Without;
    if |xs| > 0 {
      var j :| 0 <= j < |ys| && SamePair(xs[0], ys[j]) && SamePairs(xs[1..], ys[..j] + ys[j + 1..]);
      PairWritten(pf, ty, xs[0], ys[j]);
      PairsWritten(pf, ty, xs[1..], ys[..j] + ys[j + 1..]);
      PairOut(pf, ty, xs, 0);
      PairOut(pf, ty, ys, j);
      assert xs[..0] + xs[1..] == xs[1..];
      assert Without(WritePairs(pf, ty, xs), 0) == WritePairs(pf, ty, xs)[1..] by {
        FirstWithout(WritePairs(pf, ty, xs));
      }
    }
  }

  lemma FirstWithout(s: seq<Entry>)
    requires |s| > 0
    ensures Without(s, 0) == s[1..]
  {
  }

  lemma PairOut(pf: Platform, ty: Type, pairs: seq<Pair>, j: nat)
    requires ty.MapType? && j < |pairs|
    ensures Without(WritePairs(pf, ty, pairs), j) == WritePairs(pf, ty, pairs[..j] + pairs[j + 1..])
  {
    hide WriteCell, WritePairs;
  }

  lemma {:induction false} PairWritten(pf: Platform, ty: Type, p: Pair, q: Pair)
    requires ty.MapType? && SamePair(p, q)
    ensures ReorderedEntry(Entry(WriteCell(pf, ty.key, p.key), WriteCell(pf, ty.val, p.val)),
                           Entry(WriteCell(pf, ty.key, q.key), WriteCell(pf, ty.val, q.val)))
    decreases p, 0
  {
    hide WriteCell, SameCell, Reordered;
    assert p.key < p && p.val < p;
    SameWritten(pf, ty.key, p.key, q.key);
    SameWritten(pf, ty.val, p.val, q.val);
  }

  lemma RowWritten(pf: Platform, shape: RowShape, schema: seq<Field>, a: seq<Cell>, b: seq<Cell>)
    requires |a| == |schema| && SameCells(a, b)
    ensures Reordered(RowValue(pf, shape, schema, a), RowValue(pf, shape, schema, b))
  {
    hide WriteCell, WriteParts, SameCell;
    if shape == MapShape {
      PartsWritten(pf, schema, a, b);
    } else {
      forall i | 0 <= i < |a|
        ensures Reordered(WriteCell(pf, schema[i].ty, a[i]), WriteCell(pf, schema[i].ty, b[i]))
      {
        SameWritten(pf, schema[i].ty, a[i], b[i]);
      }
      Aligned(WriteEach(pf, schema, a), WriteEach(pf, schema, b));
    }
  }

  // ---- Permuted and replaced cells are the same cells ----

  lemma {:induction false} SameSelf(c: Cell)
    ensures SameCell(c, c)
    decreases c, 1
  {
    if c.ListCell? {
      forall i | 0 <= i < |c.items|
        ensures SameCell(c.items[i], c.items[i])
      {
        SameSelf(c.items[i]);
      }
    } else if c.StructCell? {
      forall i | 0 <= i < |c.parts|
        ensures SameCell(c.parts[i], c.parts[i])
      {
        SameSelf(c.parts[i]);
      }
    } else if c.MapCell? {
      PermutedPairs(c.pairs, c.pairs);
    }
  }

  lemma {:induction false} SamePairSelf(p: Pair)
    ensures SamePair(p, p)
    decreases p, 1
  {
    assert p.key < p && p.val < p;
    SameSelf(p.key);
    SameSelf(p.val);
  }

  lemma TakenOut(s: seq<Pair>, j: nat)
    requires j < |s|
    ensures multiset(s[..j] + s[j + 1..]) == multiset(s) - multiset{s[j]}
  {
    assert s == s[..j] + [s[j]] + s[j + 1..];
  }

  lemma FirstOut(s: seq<Pair>)
    requires |s| > 0
    ensures s[0] in multiset(s) && multiset(s[1..]) == multiset(s) - multiset{s[0]}
  {
    assert s == [s[0]] + s[1..];
  }

  lemma Position(p: Pair, s: seq<Pair>) returns (j: nat)
    requires p in multiset(s)
    ensures j < |s| && s[j] == p
  {
    j :| 0 <= j < |s| && s[j] == p;
  }

  lemma StillIn(s: seq<Pair>, j: nat, p: Pair)
    requires j < |s| && p in s
    ensures p == s[j] || p in s[..j] + s[j + 1..]
  {
    assert s == s[..j] + [s[j]] + s[j + 1..];
  }

  /** The first of `xs` is somewhere in `ys`, and the others are the same. */
  lemma Matching(xs: seq<Pair>, ys: seq<Pair>) returns (j: nat)
    requires multiset(xs) == multiset(ys) && |xs| > 0
    ensures j < |ys| && ys[j] == xs[0] && multiset(xs[1..]) == multiset(ys[..j] + ys[j + 1..])
  {
    FirstOut(xs);
    j := Position(xs[0], ys);
    TakenOut(ys, j);
  }

  lemma SameNumberOf(xs: seq<Pair>, ys: seq<Pair>)
    requires multiset(xs) == multiset(ys)
    ensures |xs| == |ys|
  {
    assert |multiset(xs)| == |multiset(ys)|;
  }

  lemma NoPairsAtAll()
    ensures SamePairs([], [])
  {
  }

  /** The same pairs in any order. */
  lemma {:induction false} PermutedPairs(xs: seq<Pair>, ys: seq<Pair>)
    requires multiset(xs) == multiset(ys)
    ensures SamePairs(xs, ys)
    decreases xs, 0
  {
    hide SamePair, SamePairs;
    SameNumberOf(xs, ys);
    if |xs| == 0 {
      NoPairsAtAll();
      assert xs == [] && ys == [];
    } else {
      var j := Matching(xs, ys);
      SamePairSelf(xs[0]);
      PermutedPairs(xs[1..], ys[..j] + ys[j + 1..]);
      SamePairsAt(xs, ys, j);
    }
  }

  lemma SameReplaced(cells: seq<Cell>, i: nat, d: Cell)
    requires i < |cells| && SameCell(cells[i], d)
    ensures SameCells(cells, cells[i := d])
  {
    hide SameCell;
    forall k | 0 <= k < |cells|
      ensures SameCell(cells[k], cells[i := d][k])
    {
      SameSelf(cells[k]);
    }
  }

  lemma {:induction false} AlignedPairs(xs: seq<Pair>, ys: seq<Pair>)
    requires |xs| == |ys| && forall i | 0 <= i < |xs| :: SamePair(xs[i], ys[i])
    ensures SamePairs(xs, ys)
  {
    hide SamePair, SamePairs;
    if |xs| == 0 {
      NoPairsAtAll();
      assert xs == [] && ys == [];
    } else {
      AlignedPairs(xs[1..], ys[1..]);
      assert ys[..0] + ys[1..] == ys[1..];
      SamePairsAt(xs, ys, 0);
    }
  }

  lemma PairReplaced(pairs: seq<Pair>, i: nat, p: Pair)
    requires i < |pairs| && SamePair(pairs[i], p)
    ensures SamePairs(pairs, pairs[i := p])
  {
    hide SamePair, SamePairs;
    forall k | 0 <= k < |pairs|
      ensures SamePair(pairs[k], pairs[i := p][k])
    {
      SamePairSelf(pairs[k]);
    }
    AlignedPairs(pairs, pairs[i := p]);
  }

  /** Cells that are the same up to the order of MAP entries belong to the same types. */
  lemma {:induction false} SameTyped(ty: Type, a: Cell, b: Cell)
    requires SameCell(a, b) && HasType(ty, a)
    ensures HasType(ty, b)
    decreases a, 1
  {
    hide SamePairs;
    if a.ListCell? {
      forall i | 0 <= i < |b.items|
        ensures HasType(ty.child, b.items[i])
      {
        SameTyped(ty.child, a.items[i], b.items[i]);
      }
    } else if a.StructCell? {
      SameRowTyped(ty.fields, a.parts, b.parts);
    } else if a.MapCell? {
      PairsTypedToo(ty, a.pairs, b.pairs);
    }
  }

  lemma {:induction false} SameRowTyped(fields: seq<Field>, xs: seq<Cell>, ys: seq<Cell>)
    requires SameCells(xs, ys) && HaveTypes(fields, xs)
    ensures HaveTypes(fields, ys)
    decreases xs, 2
  {
    hide SameCell, HasType;
    if |fields| > 0 {
      SameTyped(fields[0].ty, xs[0], ys[0]);
      SameRowTyped(fields[1..], xs[1..], ys[1..]);
    }
  }

  predicate PairTyped(ty: Type, p: Pair)
    requires ty.MapType?
  {
    HasType(ty.key, p.key) && HasType(ty.val, p.val) && p.key != NullCell
  }

  lemma {:induction false} PairsTypedToo(ty: Type, xs: seq<Pair>, ys: seq<Pair>)
    requires ty.MapType? && SamePairs(xs, ys) && forall p | p in xs :: PairTyped(ty, p)
    ensures forall p | p in ys :: PairTyped(ty, p)
    decreases xs, 0
  {
    hide SamePair, PairTyped;
    if |xs| > 0 {
      var j :| 0 <= j < |ys| && SamePair(xs[0], ys[j]) && SamePairs(xs[1..], ys[..j] + ys[j + 1..]);
      PairTypedToo(ty, xs[0], ys[j]);
      PairsTypedToo(ty, xs[1..], ys[..j] + ys[j + 1..]);
      forall p | p in ys
        ensures PairTyped(ty, p)
      {
        StillIn(ys, j, p);
      }
    }
  }

  lemma {:induction false} PairTypedToo(ty: Type, p: Pair, q: Pair)
    requires ty.MapType? && SamePair(p, q) && PairTyped(ty, p)
    ensures PairTyped(ty, q)
    decreases p, 0
  {
    hide SameCell, HasType;
    assert p.key < p && p.val < p;
    SameTyped(ty.key, p.key, q.key);
    SameTyped(ty.val, p.val, q.val);
    SameNull(p.key, q.key);
  }

  lemma SameNull(a: Cell, b: Cell)
    requires SameCell(a, b)
    ensures b == NullCell ==> a == NullCell
  {
  }

  // ---- A conflict shows in the table ----

  lemma ScalarWithoutConflict(pf: Platform, ty: Type, c: Cell, mode: Canon)
    requires !c.ListCell? && !c.StructCell? && !c.MapCell?
    ensures NoConflict(WriteCell(pf, ty, c), mode)
  {
    hide TrimBE, BE, Pow10, TruncDiv, ToValue, Fraction;
    if c.NumCell? && InRange(ty, c.n) {
      if ty.DecimalType? {
        FractionWithoutConflict(-(ty.scale as int), c.n, mode);
      } else if ty.TimestampType? {
        FractionWithoutConflict(0 - Digits(ty.unit), c.n, mode);
      }
    }
  }

  lemma FractionWithoutConflict(exponent: CborInt, n: I128, mode: Canon)
    ensures NoConflict(Fraction(exponent, n), mode)
  {
    hide TrimBE, BE;
    var parts := [Integer(exponent), ToValue(n)];
    forall x | x in parts
      ensures NoConflict(x, mode)
    {
    }
  }

  lemma {:induction false} AddressableItem(items: seq<Cbor>, i: nat)
    requires i < |items| && AddressableAll(items)
    ensures Addressable(items[i])
  {
    hide Addressable;
    if i > 0 {
      AddressableItem(items[1..], i - 1);
    }
  }

  lemma AddressableEntry(entries: seq<Entry>, i: nat)
    requires i < |entries| && AddressableEntries(entries)
    ensures Addressable(entries[i].key) && Addressable(entries[i].val)
  {
    hide *;
    EntriesTaken(entries, i);
  }

  /** Field names are written under different keys. */
  lemma NamesUnique(pf: Platform, fields: seq<Field>, parts: seq<Cell>, mode: Canon)
    requires DistinctNames(fields) && |parts| == |fields| && AddressableEntries(WriteParts(pf, fields, parts))
    ensures UniqueByKey(CanonParts(pf, fields, parts, mode))
  {
    hide WriteCell, WriteParts, CanonParts, Canonicalize, Encode, DistinctNames, Addressable, AddressableEntries;
    var entries := CanonParts(pf, fields, parts, mode);
    PartsDistinct(pf, fields, parts, mode);
    forall x, y | x in entries && y in entries && Encode(x.key) == Encode(y.key)
      ensures x == y
    {
      NameAddressable(pf, fields, parts, mode, x);
      NameAddressable(pf, fields, parts, mode, y);
      EncodePrefixFree(x.key, y.key);
    }
  }

  lemma NameAddressable(pf: Platform, fields: seq<Field>, parts: seq<Cell>, mode: Canon, e: Entry)
    requires |parts| == |fields| && AddressableEntries(WriteParts(pf, fields, parts))
    requires e in CanonParts(pf, fields, parts, mode)
    ensures Addressable(e.key)
  {
    hide WriteCell, WriteParts, CanonParts, Canonicalize, Addressable, AddressableEntries;
    var i :| 0 <= i < |fields| && CanonParts(pf, fields, parts, mode)[i] == e;
    CanonPart(pf, fields, parts, mode, i);
    AddressableEntry(WriteParts(pf, fields, parts), i);
  }

  /** A conflict in a cell shows: some cell, the same up to the order of MAP entries, has another canonical form. */
  lemma {:induction false} CellShows(pf: Platform, ty: Type, c: Cell, mode: Canon) returns (d: Cell)
    requires HasType(ty, c) && WellFormed(ty) && Addressable(WriteCell(pf, ty, c))
    requires !NoConflict(WriteCell(pf, ty, c), mode)
    ensures SameCell(c, d)
    ensures Canonicalize(WriteCell(pf, ty, d), mode) != Canonicalize(WriteCell(pf, ty, c), mode)
    decreases c, 1
  {
    hide Canonicalize, NoConflict, WriteAll, WriteParts, WritePairs, AddressableAll, AddressableEntries, SameCells,
      SamePairs, HaveTypes, DistinctNames, WellFormedAll;
    if c.ListCell? {
      var items := ListShows(pf, ty.child, c.items, mode);
      d := ListCell(items);
    } else if c.StructCell? {
      SameLength(ty.fields, c.parts);
      var parts := PartsShow(pf, ty.fields, c.parts, mode);
      d := StructCell(parts);
    } else if c.MapCell? {
      var pairs := PairsShow(pf, ty, c.pairs, mode);
      d := MapCell(pairs);
    } else {
      ScalarWithoutConflict(pf, ty, c, mode);
    }
  }

  lemma {:induction false} SameLength(fields: seq<Field>, parts: seq<Cell>)
    requires HaveTypes(fields, parts)
    ensures |fields| == |parts|
  {
  }

  lemma {:induction false} ListShows(pf: Platform, ty: Type, items: seq<Cell>, mode: Canon) returns (others: seq<Cell>)
    requires WellFormed(ty) && (forall x | x in items :: HasType(ty, x)) && AddressableAll(WriteAll(pf, ty, items))
    requires !NoConflict(Array(WriteAll(pf, ty, items)), mode)
    ensures SameCells(items, others)
    ensures Canonicalize(Array(WriteAll(pf, ty, others)), mode) != Canonicalize(Array(WriteAll(pf, ty, items)), mode)
    decreases items, 0
  {
    hide Canonicalize, NoConflict, WriteCell, WriteAll, AddressableAll, Addressable, SameCell, SameCells, HasType;
    var vs := WriteAll(pf, ty, items);
    var i := ConflictInside(Array(vs), mode);
    AddressableItem(vs, i);
    var d := CellShows(pf, ty, items[i], mode);
    SameReplaced(items, i, d);
    others := items[i := d];
    ItemShows(vs, i, WriteCell(pf, ty, d), mode);
    assert WriteAll(pf, ty, others) == vs[i := WriteCell(pf, ty, d)];
  }

  lemma {:induction false} PartsShow(pf: Platform, fields: seq<Field>, parts: seq<Cell>, mode: Canon)
    returns (others: seq<Cell>)
    requires |parts| == |fields| && HaveTypes(fields, parts) && DistinctNames(fields) && WellFormedAll(fields)
    requires AddressableEntries(WriteParts(pf, fields, parts))
    requires !NoConflict(Map(WriteParts(pf, fields, parts)), mode)
    ensures SameCells(parts, others) && |others| == |fields|
    ensures Canonicalize(Map(WriteParts(pf, fields, others)), mode)
            != Canonicalize(Map(WriteParts(pf, fields, parts)), mode)
    decreases parts, 0
  {
    hide Canonicalize, NoConflict, WriteCell, WriteParts, AddressableEntries, Addressable, SameCell, SameCells, HasType,
      HaveTypes, WellFormed, WellFormedAll, DistinctNames, UniqueByKey;
    var es := WriteParts(pf, fields, parts);
    NamesUnique(pf, fields, parts, mode);
    var i := ConflictInside(Map(es), mode);
    AddressableEntry(es, i);
    HaveTypesAt(fields, parts, i);
    TextWithoutConflict(fields[i].name, mode);
    var d := CellShows(pf, fields[i].ty, parts[i], mode);
    SameReplaced(parts, i, d);
    others := parts[i := d];
    assert |others| == |fields|;
    var e := Entry(Text(fields[i].name), WriteCell(pf, fields[i].ty, d));
    EntryShows(es, i, e, mode);
    assert WriteParts(pf, fields, others) == es[i := e];
  }

  lemma TextWithoutConflict(s: Utf8, mode: Canon)
    ensures NoConflict(Text(s), mode)
  {
  }

  lemma {:induction false} PairsShow(pf: Platform, ty: Type, pairs: seq<Pair>, mode: Canon)
    returns (others: seq<Pair>)
    requires ty.MapType? && WellFormed(ty) && (forall p | p in pairs :: PairTyped(ty, p))
    requires AddressableEntries(WritePairs(pf, ty, pairs))
    requires !NoConflict(Map(WritePairs(pf, ty, pairs)), mode)
    ensures SamePairs(pairs, others)
    ensures Canonicalize(Map(WritePairs(pf, ty, others)), mode) != Canonicalize(Map(WritePairs(pf, ty, pairs)), mode)
    decreases pairs, 0
  {
    hide Canonicalize, NoConflict, WriteCell, WritePairs, AddressableEntries, Addressable, SamePair, SamePairs, HasType,
      UniqueByKey, CanonEntries;
    var es := WritePairs(pf, ty, pairs);
    if UniqueByKey(CanonEntries(es, mode)) {
      var i := ConflictInside(Map(es), mode);
      AddressableEntry(es, i);
      assert PairTyped(ty, pairs[i]);
      var p := PairShows(pf, ty, pairs[i], mode);
      PairReplaced(pairs, i, p);
      others := pairs[i := p];
      var e := Entry(WriteCell(pf, ty.key, p.key), WriteCell(pf, ty.val, p.val));
      EntryShows(es, i, e, mode);
      assert WritePairs(pf, ty, others) == es[i := e];
    } else {
      var i, j := Conflict(es, mode);
      TwoForms(es, i, j, mode);
      FrontedPairs(pf, ty, pairs, i);
      FrontedPairs(pf, ty, pairs, j);
      others := if Canonicalize(Map(Fronted(es, i)), mode) != Canonicalize(Map(es), mode) then Front(pairs, i)
                else Front(pairs, j);
    }
  }

  lemma {:induction false} PairShows(pf: Platform, ty: Type, p: Pair, mode: Canon) returns (q: Pair)
    requires ty.MapType? && WellFormed(ty) && PairTyped(ty, p)
    requires Addressable(WriteCell(pf, ty.key, p.key)) && Addressable(WriteCell(pf, ty.val, p.val))
    requires !NoConflictEntry(Entry(WriteCell(pf, ty.key, p.key), WriteCell(pf, ty.val, p.val)), mode)
    ensures SamePair(p, q)
    ensures CanonEntry(Entry(WriteCell(pf, ty.key, q.key), WriteCell(pf, ty.val, q.val)), mode)
            != CanonEntry(Entry(WriteCell(pf, ty.key, p.key), WriteCell(pf, ty.val, p.val)), mode)
    decreases p, 0
  {
    hide Canonicalize, NoConflict, WriteCell, Addressable, SameCell, HasType;
    assert p.key < p && p.val < p;
    SameSelf(p.key);
    SameSelf(p.val);
    if !NoConflict(WriteCell(pf, ty.key, p.key), mode) {
      var key := CellShows(pf, ty.key, p.key, mode);
      q := Pair(key, p.val);
    } else {
      var val := CellShows(pf, ty.val, p.val, mode);
      q := Pair(p.key, val);
    }
  }

  /** The pairs with the `i`-th first. */
  function Front(pairs: seq<Pair>, i: nat): seq<Pair>
    requires i < |pairs|
  {
    [pairs[i]] + (pairs[..i] + pairs[i + 1..])
  }

  lemma FrontMembers(pairs: seq<Pair>, i: nat)
    requires i < |pairs|
    ensures multiset(Front(pairs, i)) == multiset(pairs)
  {
    assert pairs == pairs[..i] + [pairs[i]] + pairs[i + 1..];
  }

  lemma FrontedPairs(pf: Platform, ty: Type, pairs: seq<Pair>, i: nat)
    requires ty.MapType? && i < |pairs|
    ensures SamePairs(pairs, Front(pairs, i))
    ensures WritePairs(pf, ty, Front(pairs, i)) == Fronted(WritePairs(pf, ty, pairs), i)
  {
    hide WriteCell, WritePairs, SamePairs;
    FrontMembers(pairs, i);
    PermutedPairs(pairs, Front(pairs, i));
    assert WritePairs(pf, ty, Front(pairs, i)) == Fronted(WritePairs(pf, ty, pairs), i);
  }

  // ---- Rows ----

  lemma {:induction false} RowShows(pf: Platform, shape: RowShape, schema: seq<Field>, row: seq<Cell>, mode: Canon)
    returns (other: seq<Cell>)
    requires HaveTypes(schema, row) && |row| == |schema| && WellFormedAll(schema) && DistinctNames(schema)
    requires Addressable(RowValue(pf, shape, schema, row)) && !NoConflict(RowValue(pf, shape, schema, row), mode)
    ensures SameCells(row, other) && |other| == |schema|
    ensures Canonicalize(RowValue(pf, shape, schema, other), mode)
            != Canonicalize(RowValue(pf, shape, schema, row), mode)
  {
    hide Canonicalize, NoConflict, WriteCell, WriteParts, WriteEach, AddressableAll, AddressableEntries, SameCell,
      SameCells, HasType, HaveTypes, WellFormed, WellFormedAll, DistinctNames;
    if shape == MapShape {
      other := PartsShow(pf, schema, row, mode);
    } else {
      var vs := WriteEach(pf, schema, row);
      var i := ConflictInside(Array(vs), mode);
      AddressableItem(vs, i);
      HaveTypesAt(schema, row, i);
      var d := CellShows(pf, schema[i].ty, row[i], mode);
      SameReplaced(row, i, d);
      other := row[i := d];
      assert |other| == |schema|;
      ItemShows(vs, i, WriteCell(pf, schema[i].ty, d), mode);
      assert WriteEach(pf, schema, other) == vs[i := WriteCell(pf, schema[i].ty, d)];
    }
  }

  /** The bytes of a row written with a canonical mode. */
  function CanonicalRow(pf: Platform, shape: RowShape, mode: Canon, schema: seq<Field>, row: seq<Cell>): Bytes
    requires |row| == |schema|
  {
    RowBytes(pf, CborWire, Options(shape, Some(mode)), schema, row)
  }

  /** The bytes are the canonical form's. */
  lemma CanonicalRowForm(pf: Platform, shape: RowShape, mode: Canon, schema: seq<Field>, a: seq<Cell>, b: seq<Cell>)
    requires |a| == |schema| && SameCells(a, b) && Addressable(RowValue(pf, shape, schema, a))
    ensures CanonicalRow(pf, shape, mode, schema, a) == CanonicalRow(pf, shape, mode, schema, b)
            <==> Canonicalize(RowValue(pf, shape, schema, a), mode)
                 == Canonicalize(RowValue(pf, shape, schema, b), mode)
  {
    hide RowValue, Canonicalize, Encode, Addressable, Depth, SameCell, Reordered;
    var v, w := RowValue(pf, shape, schema, a), RowValue(pf, shape, schema, b);
    RowWritten(pf, shape, schema, a, b);
    ReorderedKeeps(v, w);
    CanonKeeps(v, mode);
    CanonKeeps(w, mode);
    if Encode(Canonicalize(v, mode)) == Encode(Canonicalize(w, mode)) {
      EncodePrefixFree(Canonicalize(v, mode), Canonicalize(w, mode));
    }
  }

  /** All rows that are the same up to the order of MAP entries are written as the same bytes, exactly when no two
      entries of one MAP in the row are written under one key without being written the same. */
  lemma RowDeterministicIff(pf: Platform, shape: RowShape, mode: Canon, schema: seq<Field>, row: seq<Cell>)
    requires HaveTypes(schema, row) && |row| == |schema| && WellFormedAll(schema) && DistinctNames(schema)
    requires Addressable(RowValue(pf, shape, schema, row))
    ensures (forall other | SameCells(row, other) ::
               CanonicalRow(pf, shape, mode, schema, other) == CanonicalRow(pf, shape, mode, schema, row))
            <==> NoConflict(RowValue(pf, shape, schema, row), mode)
  {
    hide RowValue, Canonicalize, NoConflict, CanonicalRow, Addressable, SameCell, HaveTypes, WellFormedAll,
      DistinctNames, Reordered;
    if NoConflict(RowValue(pf, shape, schema, row), mode) {
      forall other | SameCells(row, other)
        ensures CanonicalRow(pf, shape, mode, schema, other) == CanonicalRow(pf, shape, mode, schema, row)
      {
        RowWritten(pf, shape, schema, row, other);
        CanonDeterministic(RowValue(pf, shape, schema, row), RowValue(pf, shape, schema, other), mode);
        CanonicalRowForm(pf, shape, mode, schema, row, other);
      }
    } else {
      var other := RowShows(pf, shape, schema, row, mode);
      CanonicalRowForm(pf, shape, mode, schema, row, other);
    }
  }

  // ---- Files ----

  ghost predicate SameTable(rows: seq<seq<Cell>>, others: seq<seq<Cell>>) {
    |rows| == |others| && forall i | 0 <= i < |rows| :: SameCells(rows[i], others[i])
  }

  /** No two entries of one MAP in the row are written under one key without being written the same. */
  ghost predicate KeysDecide(job: Job, opts: Options, row: seq<Cell>)
    requires opts.canonical.Some?
  {
    |row| == |job.schema| && NoConflict(RowValue(job.pf, opts.shape, job.schema, row), opts.canonical.value)
  }

  lemma RowSendableToo(job: Job, opts: Options, a: seq<Cell>, b: seq<Cell>)
    requires opts.canonical.Some? && opts.Fit(job.wire) && SameCells(a, b)
    requires Sendable(job.pf, job.wire, opts, job.schema, a)
    ensures Sendable(job.pf, job.wire, opts, job.schema, b)
    ensures Addressable(RowValue(job.pf, opts.shape, job.schema, a))
  {
    hide RowValue, Canonicalize, Addressable, Depth, SameCell, HaveTypes, Reordered;
    SameRowTyped(job.schema, a, b);
    var v, w := RowValue(job.pf, opts.shape, job.schema, a), RowValue(job.pf, opts.shape, job.schema, b);
    RowWritten(job.pf, opts.shape, job.schema, a, b);
    ReorderedKeeps(v, w);
    CanonKeeps(v, opts.canonical.value);
    CanonKeeps(w, opts.canonical.value);
  }

  lemma MatchedToo(job: Job, opts: Options, rows: seq<seq<Cell>>, others: seq<seq<Cell>>)
    requires Matched(job, opts, rows) && opts.canonical.Some? && SameTable(rows, others)
    ensures Matched(job, opts, others)
  {
    hide Sendable, SameCell, WellFormedAll, DistinctNames, Job.Valid;
    forall row | row in others
      ensures Sendable(job.pf, job.wire, opts, job.schema, row)
    {
      var i :| 0 <= i < |others| && others[i] == row;
      assert rows[i] in rows;
      RowSendableToo(job, opts, rows[i], row);
    }
  }

  /** What `RowDeterministicIff` says of a row of the table. */
  lemma RowOfFile(job: Job, opts: Options, rows: seq<seq<Cell>>, i: nat)
    requires Matched(job, opts, rows) && opts.canonical.Some? && i < |rows|
    ensures |rows[i]| == |job.schema|
    ensures (forall other | SameCells(rows[i], other) ::
               RowBytes(job.pf, job.wire, opts, job.schema, other)
               == RowBytes(job.pf, job.wire, opts, job.schema, rows[i]))
            <==> KeysDecide(job, opts, rows[i])
  {
    hide RowValue, Canonicalize, NoConflict, Addressable, SameCell, SameCells, HaveTypes, WellFormedAll, DistinctNames,
      Job.Valid, Wire.EncodeRow;
    var row := rows[i];
    assert Sendable(job.pf, job.wire, opts, job.schema, row);
    RowSelf(row);
    RowSendableToo(job, opts, row, row);
    RowDeterministicIff(job.pf, opts.shape, opts.canonical.value, job.schema, row);
    assert opts == Options(opts.shape, Some(opts.canonical.value)) && job.wire == CborWire;
    forall other | SameCells(row, other)
      ensures |other| == |row|
      ensures RowBytes(job.pf, job.wire, opts, job.schema, other)
              == CanonicalRow(job.pf, opts.shape, opts.canonical.value, job.schema, other)
    {
      SameWidth(row, other);
    }
  }

  lemma RowSelf(row: seq<Cell>)
    ensures SameCells(row, row)
  {
    SameSelf(StructCell(row));
  }

  lemma SameWidth(a: seq<Cell>, b: seq<Cell>)
    requires SameCells(a, b)
    ensures |a| == |b|
  {
  }

  lemma SameMiddle(front: Bytes, a: Bytes, back: Bytes, b: Bytes)
    requires front + (a + back) == front + (b + back)
    ensures a == b
  {
    assert |a| == |b|;
    assert (front + (a + back))[|front|..][..|a|] == a;
    assert (front + (b + back))[|front|..][..|b|] == b;
  }

  lemma OneChunkDiffers(chunks: seq<Bytes>, i: nat, b: Bytes)
    requires i < |chunks| && Concat(chunks[i := b]) == Concat(chunks)
    ensures b == chunks[i]
  {
    var others := chunks[i := b];
    ConcatSplit(chunks, i);
    ConcatSplit(others, i);
    assert others[..i] == chunks[..i] && others[i..][1..] == chunks[i..][1..];
    SameMiddle(Concat(chunks[..i]), b, Concat(chunks[i..][1..]), chunks[i]);
  }

  lemma SameFile(job: Job, opts: Options, rows: seq<seq<Cell>>, others: seq<seq<Cell>>)
    requires Matched(job, opts, rows) && opts.canonical.Some? && SameTable(rows, others) && Matched(job, opts, others)
    requires forall row | row in rows :: KeysDecide(job, opts, row)
    ensures File(job, opts, others) == File(job, opts, rows)
  {
    hide Matched, File, KeysDecide, RowBytes, SameCell, SameCells;
    FileIsChunks(job, opts, rows);
    FileIsChunks(job, opts, others);
    forall i | 0 <= i < |rows|
      ensures RowBytes(job.pf, job.wire, opts, job.schema, others[i])
              == RowBytes(job.pf, job.wire, opts, job.schema, rows[i])
    {
      RowOfFile(job, opts, rows, i);
      assert KeysDecide(job, opts, rows[i]);
    }
    assert Chunks(job.pf, job.wire, opts, job.schema, others) == Chunks(job.pf, job.wire, opts, job.schema, rows);
  }

  lemma OtherFile(job: Job, opts: Options, rows: seq<seq<Cell>>, i: nat) returns (others: seq<seq<Cell>>)
    requires Matched(job, opts, rows) && opts.canonical.Some? && i < |rows| && !KeysDecide(job, opts, rows[i])
    ensures SameTable(rows, others) && Matched(job, opts, others) && File(job, opts, others) != File(job, opts, rows)
  {
    hide Matched, File, KeysDecide, RowBytes, SameCells;
    RowOfFile(job, opts, rows, i);
    var other :| SameCells(rows[i], other)
                 && (SameWidth(rows[i], other); RowBytes(job.pf, job.wire, opts, job.schema, other))
                    != RowBytes(job.pf, job.wire, opts, job.schema, rows[i]);
    others := rows[i := other];
    forall k | 0 <= k < |rows|
      ensures SameCells(rows[k], others[k])
    {
      RowSelf(rows[k]);
    }
    MatchedToo(job, opts, rows, others);
    FileIsChunks(job, opts, rows);
    FileIsChunks(job, opts, others);
    var chunks := Chunks(job.pf, job.wire, opts, job.schema, rows);
    var b := RowBytes(job.pf, job.wire, opts, job.schema, other);
    assert Chunks(job.pf, job.wire, opts, job.schema, others) == chunks[i := b];
    if File(job, opts, others) == File(job, opts, rows) {
      OneChunkDiffers(chunks, i, b);
    }
  }

  /** With a canonical mode, in either row shape: all tables that are the same up to the order of MAP entries give the
      same file, byte for byte, exactly when in every row no two entries of one MAP are written under one key without
      being written the same. */
  lemma FileDeterministicIff(job: Job, opts: Options, rows: seq<seq<Cell>>)
    requires Matched(job, opts, rows) && opts.canonical.Some?
    ensures forall others | SameTable(rows, others) :: Matched(job, opts, others)
    ensures (forall others | SameTable(rows, others) :: File(job, opts, others) == File(job, opts, rows))
            <==> forall row | row in rows :: KeysDecide(job, opts, row)
  {
    hide Matched, File, KeysDecide, SameTable;
    forall others | SameTable(rows, others)
      ensures Matched(job, opts, others)
    {
      MatchedToo(job, opts, rows, others);
    }
    if forall row | row in rows :: KeysDecide(job, opts, row) {
      forall others | SameTable(rows, others)
        ensures File(job, opts, others) == File(job, opts, rows)
      {
        SameFile(job, opts, rows, others);
      }
    } else {
      var i :| 0 <= i < |rows| && !KeysDecide(job, opts, rows[i]);
      var others := OtherFile(job, opts, rows, i);
    }
  }

  /** A table of one MAP column with TIME_NS keys. */
  function NanosecondKeyed(name: Utf8): (schema: seq<Field>)
    ensures |schema| == 1
  {
    [Field(name, MapType(TimeType(Nanosecond), BooleanType))]
  }

  /** A row of it, with two entries. */
  function TwoKeys(m: int, b: bool, n: int, c: bool): (row: seq<Cell>)
    ensures |row| == 1
  {
    [MapCell([Pair(NumCell(m), BoolCell(b)), Pair(NumCell(n), BoolCell(c))])]
  }

  /** What is written for both keys within the first microsecond. */
  function Alike(b: bool, c: bool): Cbor {
    Map([Entry(Integer(0), Bool(b)), Entry(Integer(0), Bool(c))])
  }

  /** TIME_NS keys within one microsecond are written under one key: two rows that differ in the order of such entries
      only are written as different bytes, in either mode. */
  lemma NanosecondKeys(pf: Platform, mode: Canon, name: Utf8)
    ensures SameCells(TwoKeys(1, false, 2, true), TwoKeys(2, true, 1, false))
    ensures CanonicalRow(pf, ArrayShape, mode, NanosecondKeyed(name), TwoKeys(1, false, 2, true))
            != CanonicalRow(pf, ArrayShape, mode, NanosecondKeyed(name), TwoKeys(2, true, 1, false))
  {
    hide *;
    Swapped(1, false, 2, true);
    NanosecondRow(pf, name, 1, false, 2, true);
    NanosecondRow(pf, name, 2, true, 1, false);
    KeysAlike(mode);
    CanonicalRowForm(pf, ArrayShape, mode, NanosecondKeyed(name), TwoKeys(1, false, 2, true),
                     TwoKeys(2, true, 1, false));
  }

  lemma Swapped(m: int, b: bool, n: int, c: bool)
    ensures SameCells(TwoKeys(m, b, n, c), TwoKeys(n, c, m, b))
  {
    hide SamePairs;
    var p, q := Pair(NumCell(m), BoolCell(b)), Pair(NumCell(n), BoolCell(c));
    assert multiset([q, p]) == multiset([p, q]);
    PermutedPairs([p, q], [q, p]);
  }

  lemma NanosecondRow(pf: Platform, name: Utf8, m: int, b: bool, n: int, c: bool)
    requires 0 <= m < 1_000 && 0 <= n < 1_000
    ensures RowValue(pf, ArrayShape, NanosecondKeyed(name), TwoKeys(m, b, n, c)) == Array([Alike(b, c)])
    ensures Addressable(Array([Alike(b, c)]))
  {
    hide WriteCell;
    var ty := MapType(TimeType(Nanosecond), BooleanType);
    var pairs := [Pair(NumCell(m), BoolCell(b)), Pair(NumCell(n), BoolCell(c))];
    SmallTime(pf, m);
    SmallTime(pf, n);
    Flag(pf, b);
    Flag(pf, c);
    MapWritten(pf, ty, pairs);
    assert WritePairs(pf, ty, pairs) == Alike(b, c).entries;
    TwoAddressable(Entry(Integer(0), Bool(b)), Entry(Integer(0), Bool(c)));
  }

  lemma TwoAddressable(x: Entry, y: Entry)
    requires x.key.Integer? && x.val.Bool? && y.key.Integer? && y.val.Bool?
    ensures Addressable(Array([Map([x, y])]))
  {
    assert [x, y] == [x] + [y] && [y] == [y] + [];
    EntriesFirst(x, [y]);
    EntriesFirst(y, []);
    OneMap([x, y]);
  }

  lemma OneMap(entries: seq<Entry>)
    requires |entries| < TWO_64 && AddressableEntries(entries)
    ensures Addressable(Array([Map(entries)]))
  {
    hide AddressableEntries;
    var v := Map(entries);
    assert Addressable(v) && [v][1..] == [];
    assert AddressableAll([v]);
  }

  lemma SmallTime(pf: Platform, n: int)
    requires 0 <= n < 1_000
    ensures WriteCell(pf, TimeType(Nanosecond), NumCell(n)) == Integer(0)
  {
  }

  lemma Flag(pf: Platform, b: bool)
    ensures WriteCell(pf, BooleanType, BoolCell(b)) == Bool(b)
  {
  }

  lemma MapWritten(pf: Platform, ty: Type, pairs: seq<Pair>)
    requires ty.MapType?
    ensures WriteCell(pf, ty, MapCell(pairs)) == Map(WritePairs(pf, ty, pairs))
  {
    hide WritePairs;
  }

  lemma LeafEntry(n: CborInt, b: bool, mode: Canon)
    ensures CanonEntry(Entry(Integer(n), Bool(b)), mode) == Entry(Integer(n), Bool(b))
  {
  }

  lemma FrontedTwo(x: Entry, y: Entry)
    ensures Fronted([x, y], 0) == [x, y] && Fronted([x, y], 1) == [y, x]
  {
  }

  lemma KeysAlike(mode: Canon)
    ensures Canonicalize(Array([Alike(false, true)]), mode) != Canonicalize(Array([Alike(true, false)]), mode)
  {
    hide Canonicalize, CanonEntry, Encode, Fronted;
    var x, y := Entry(Integer(0), Bool(false)), Entry(Integer(0), Bool(true));
    LeafEntry(0, false, mode);
    LeafEntry(0, true, mode);
    TwoForms([x, y], 0, 1, mode);
    FrontedTwo(x, y);
    ItemShows([Alike(false, true)], 0, Alike(true, false), mode);
    assert [Alike(false, true)][0 := Alike(true, false)] == [Alike(true, false)];
  }
}
