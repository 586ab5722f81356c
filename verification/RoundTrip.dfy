/** A cell written as CBOR, possibly carried through MessagePack, and read back for its own column type. */
module RoundTrip {
  import opened Base
  import opened Values
  import opened Bignum
  import opened Exact
  import opened Msgpack
  import opened Columns
  import opened ReadCells
  import opened ValueIn

  datatype Route = Direct | ViaMsgpack

  function Carry(pf: Platform, route: Route, v: Cbor): Cbor {
    if route == Direct then v else Carried(pf, v)
  }

  /** What a round trip keeps of a cell: everything, but TIME_NS in whole microseconds, and a single as it is after
      being widened to a double and narrowed again (a NaN may lose its payload). */
  function Kept(pf: Platform, ty: Type, c: Cell): (r: Cell)
    ensures r == NullCell <==> c == NullCell
    decreases ty, 0
  {
    match c
    case NumCell(n) => if ty == TimeType(Nanosecond) then NumCell(TruncDiv(n, 1_000) * 1_000) else c
    case SingleCell(x) => SingleCell(pf.narrow(pf.widen(x)))
    case ListCell(items) => if ty.ListType? || ty.FixedListType? then ListCell(KeptAll(pf, ty.child, items)) else c
    case StructCell(parts) =>
      if ty.StructType? && |ty.fields| == |parts| then StructCell(KeptParts(pf, ty.fields, parts)) else c
    case MapCell(pairs) => if ty.MapType? then MapCell(KeptPairs(pf, ty, pairs)) else c
    case _ => c
  }

  function KeptAll(pf: Platform, ty: Type, items: seq<Cell>): (r: seq<Cell>)
    ensures |r| == |items|
    ensures forall i | 0 <= i < |items| :: r[i] == Kept(pf, ty, items[i])
    decreases ty, |items|
  {
    if |items| == 0 then [] else [Kept(pf, ty, items[0])] + KeptAll(pf, ty, items[1..])
  }

  function KeptParts(pf: Platform, fields: seq<Field>, parts: seq<Cell>): (r: seq<Cell>)
    requires |fields| == |parts|
    ensures |r| == |parts|
    ensures forall i | 0 <= i < |parts| :: r[i] == Kept(pf, fields[i].ty, parts[i])
    decreases fields, 0
  {
    if |fields| == 0 then [] else
      assert fields[0].ty < fields[0];
      [Kept(pf, fields[0].ty, parts[0])] + KeptParts(pf, fields[1..], parts[1..])
  }

  function KeptPairs(pf: Platform, ty: Type, pairs: seq<Pair>): (r: seq<Pair>)
    requires ty.MapType?
    ensures |r| == |pairs|
    ensures forall i | 0 <= i < |pairs| :: r[i] == Pair(Kept(pf, ty.key, pairs[i].key), Kept(pf, ty.val, pairs[i].val))
    decreases ty, 0, |pairs|
  {
    if |pairs| == 0 then [] else
      [Pair(Kept(pf, ty.key, pairs[0].key), Kept(pf, ty.val, pairs[0].val))] + KeptPairs(pf, ty, pairs[1..])
  }

  /** The one case MessagePack cannot carry: a decimal mantissa that is a native CBOR integer below the 64-bit range. */
  predicate WideDecimal(route: Route, ty: Type, n: int) {
    route == ViaMsgpack && ty.DecimalType? && -TWO_64 <= n < -TWO_63
  }

  /** The cell holds such a mantissa somewhere. */
  ghost predicate Uncarried(route: Route, ty: Type, c: Cell)
    decreases ty, 0
  {
    match c
    case NumCell(n) => WideDecimal(route, ty, n)
    case ListCell(items) =>
      (ty.ListType? || ty.FixedListType?) && exists x | x in items :: Uncarried(route, ty.child, x)
    case StructCell(parts) => ty.StructType? && UncarriedParts(route, ty.fields, parts)
    case MapCell(pairs) =>
      ty.MapType? && exists p | p in pairs :: Uncarried(route, ty.key, p.key) || Uncarried(route, ty.val, p.val)
    case _ => false
  }

  ghost predicate UncarriedParts(route: Route, fields: seq<Field>, parts: seq<Cell>)
    decreases fields, 0
  {
    exists j | 0 <= j < |fields| && j < |parts| ::
      assert fields[j].ty < fields[j];
      Uncarried(route, fields[j].ty, parts[j])
  }

  // ---- Scalars ----

  /** A tag does not change the content below it. */
  lemma ContentOfTag(tag: U64, inner: Cbor)
    ensures Content(Tag(tag, inner)) == Content(inner)
    ensures IsNull(Tag(tag, inner)) == Content(inner).Null?
  {
  }

  lemma CarryLeaf(pf: Platform, route: Route, v: Cbor)
    requires v.Null? || v.Bool? || v.Float? || v.Text? || v.Blob? || (v.Integer? && v.n >= -TWO_63)
    ensures Carry(pf, route, v) == v
  {
  }

  /** The mantissa arrives as it was, unless it degraded to a float. */
  lemma CarryMantissa(pf: Platform, route: Route, n: I128)
    ensures Carry(pf, route, ToValue(n))
            == if route == ViaMsgpack && -TWO_64 <= n < -TWO_63 then Float(pf.ofInt(n)) else ToValue(n)
  {
    hide TrimBE;
  }

  /** A decimal fraction arrives as itself or, without its tag, as a bare array. */
  lemma CarryFraction(pf: Platform, route: Route, exponent: CborInt, n: I128)
    requires exponent >= -TWO_63
    ensures var parts := Array([Integer(exponent), Carry(pf, route, ToValue(n))]);
            Carry(pf, route, Fraction(exponent, n)) == if route == Direct then Tag(4, parts) else parts
  {
    hide ToValue;
    var items := [Integer(exponent), ToValue(n)];
    assert CborToMp(pf, Tag(4, Array(items))) == CborToMp(pf, Array(items));
    assert AllToMp(pf, items) == [CborToMp(pf, items[0]), CborToMp(pf, items[1])];
    var mps := AllToMp(pf, items);
    assert AllToCbor(pf, mps) == [MpToCbor(pf, mps[0])] + AllToCbor(pf, mps[1..]);
    assert mps[1..] == [mps[1]];
    assert AllToCbor(pf, [mps[1]]) == [MpToCbor(pf, mps[1])] + AllToCbor(pf, []);
  }

  lemma FractionParts(exponent: int, n: I128, tagged: bool)
    requires IsI32(exponent)
    ensures var parts := Array([Integer(exponent), ToValue(n)]);
            DecimalParts(if tagged then Tag(4, parts) else parts) == Some((n, exponent))
  {
    hide ToValue, FromValue;
    BignumRoundTrip(n);
    IntegerValue(exponent);
  }

  lemma IntegerValue(n: CborInt)
    ensures FromValue(Integer(n)) == Some(n)
  {
  }

  lemma DecimalRoundTrip(pf: Platform, route: Route, scale: Scale, n: I128)
    ensures var v := Carry(pf, route, WriteNumber(DecimalType(scale), n));
            && !IsNull(v)
            && DecimalAt(pf, v, scale) == if WideDecimal(route, DecimalType(scale), n) then Refused else Ok(n)
  {
    hide *;
    var exponent := WrittenFraction(scale, n);
    CarryFraction(pf, route, exponent, n);
    CarryMantissa(pf, route, n);
    var v := Carry(pf, route, Fraction(exponent, n));
    FractionNotNull(Integer(exponent), Carry(pf, route, ToValue(n)));
    if WideDecimal(route, DecimalType(scale), n) {
      WideIsVia(route, DecimalType(scale), n);
      FloatMantissa(pf, exponent, pf.ofInt(n), scale);
    } else {
      NarrowMantissa(route, scale, n);
      FractionParts(exponent, n, route == Direct);
      DecimalAtParts(pf, v, n, exponent, scale);
      RescaleSameScale(n, scale);
    }
  }

  lemma WrittenFraction(scale: Scale, n: I128) returns (exponent: CborInt)
    ensures exponent == -(scale as int) && IsI32(exponent) && exponent >= -TWO_63
    ensures WriteNumber(DecimalType(scale), n) == Fraction(exponent, n)
  {
    exponent := -(scale as int);
  }

  lemma WideIsVia(route: Route, ty: Type, n: int)
    requires WideDecimal(route, ty, n)
    ensures route == ViaMsgpack && -TWO_64 <= n < -TWO_63
  {
  }

  lemma NarrowMantissa(route: Route, scale: Scale, n: int)
    requires !WideDecimal(route, DecimalType(scale), n)
    ensures !(route == ViaMsgpack && -TWO_64 <= n < -TWO_63)
  {
  }

  lemma FractionNotNull(exponent: Cbor, mantissa: Cbor)
    ensures var parts := Array([exponent, mantissa]); !IsNull(parts) && !IsNull(Tag(4, parts))
  {
    ContentOfTag(4, Array([exponent, mantissa]));
  }

  lemma DecimalAtParts(pf: Platform, v: Cbor, n: I128, exponent: int, scale: int)
    requires DecimalParts(v) == Some((n, exponent))
    ensures DecimalAt(pf, v, scale) == Rescale(n, exponent, scale)
  {
    hide DecimalParts, Rescale;
  }

  lemma FloatMantissa(pf: Platform, exponent: CborInt, f: F64, scale: int)
    ensures DecimalAt(pf, Array([Integer(exponent), Float(f)]), scale) == Refused
  {
  }

  // ---- Timestamps ----

  lemma Pow10OfUnit(unit: TimeUnit)
    ensures Pow10(Digits(unit))
            == match unit case Second => 1 case Millisecond => 1_000 case Microsecond => 1_000_000
                          case Nanosecond => 1_000_000_000
    ensures Pow10(9 - Digits(unit))
            == match unit case Second => 1_000_000_000 case Millisecond => 1_000_000 case Microsecond => 1_000
                          case Nanosecond => 1
  {
    assert Pow10(3) == 1_000 && Pow10(6) == 1_000_000;
    Pow10Sum(3, 6);
  }

  /** An instant of `secs` seconds and `nanos` nanoseconds that is `n` whole units is read as `n`. */
  lemma InstantRead(pf: Platform, unit: TimeUnit, n: I64, secs: I64, nanos: Nanos)
    requires secs * NANOS_PER_SEC + nanos == n * Pow10(9 - Digits(unit))
    ensures TimestampAt(pf, Tag(1, InstantContent(secs, nanos)), unit) == Ok(n)
  {
    Pow10OfUnit(unit);
    hide ToValue, FromValue;
    if nanos == 0 {
      IntegerValue(secs);
      assert ExactParts(Integer(secs)) == Some((secs, 0));
      CheckedPow10Range(Digits(unit));
    } else {
      var total := secs * NANOS_PER_SEC + nanos;
      FractionParts(-9, total, true);
      CheckedPow10Range(9 - Digits(unit));
      var factor := Pow10(9 - Digits(unit));
      ExactQuotient(total, factor, n);
      assert ExactParts(InstantContent(secs, nanos)) == Some((total, -9));
      hide ExactParts;
      RescaleDown(total, -9, Digits(unit), n);
    }
  }

  lemma RescaleDown(total: I128, exponent: int, digits: nat, n: I64)
    requires exponent + digits <= 0 && -exponent - digits <= 38
    requires total == n * Pow10(-exponent - digits)
    ensures Rescale(total, exponent, digits) == Ok(n)
  {
    CheckedPow10Range(-exponent - digits);
    ExactQuotient(total, Pow10(-exponent - digits), n);
    assert Pow10(0) == 1;
  }

  /** What is written for a timestamp is an instant of exactly that many units. */
  lemma TimestampParts(pf: Platform, unit: TimeUnit, n: I64)
    ensures var v := WriteTimestamp(unit, n);
            && v.Tag? && v.tag == 1 && InstantParts(pf, v.inner).Some?
            && var (secs, nanos) := InstantParts(pf, v.inner).value;
               secs * NANOS_PER_SEC + nanos == n * Pow10(9 - Digits(unit))
  {
    Pow10OfUnit(unit);
    var per := Pow10(Digits(unit));
    if n % per == 0 {
      ExactQuotient(n, per, TruncDiv(n, per));
    } else {
      FractionParts(0 - Digits(unit), n, true);
      CheckedPow10Range(9 - Digits(unit));
      SplitExact(n * Pow10(9 - Digits(unit)));
    }
  }

  lemma SplitExact(total: int)
    requires -TWO_63 * 1_000_000_000 <= total < TWO_63 * 1_000_000_000
    ensures IsI64(total / NANOS_PER_SEC)
    ensures total / NANOS_PER_SEC * NANOS_PER_SEC + total % NANOS_PER_SEC == total
  {
  }

  lemma TimestampRoundTrips(pf: Platform, route: Route, unit: TimeUnit, n: I64)
    ensures var v := Carry(pf, route, WriteTimestamp(unit, n));
            !IsNull(v) && TimestampAt(pf, v, unit) == Ok(n)
  {
    TimestampParts(pf, unit, n);
    var inner := WriteTimestamp(unit, n).inner;
    var (secs, nanos) := InstantParts(pf, inner).value;
    if route == Direct {
      DirectTimestamp(pf, unit, n);
    } else {
      CarriedInstant(pf, inner);
      InstantNotNull(secs, nanos);
      InstantRead(pf, unit, n, secs, nanos);
    }
  }

  lemma InstantNotNull(secs: I64, nanos: Nanos)
    ensures !IsNull(Tag(1, InstantContent(secs, nanos)))
  {
    hide ToValue;
    ContentOfTag(1, InstantContent(secs, nanos));
    if nanos != 0 {
      ContentOfTag(4, InstantContent(secs, nanos).inner);
    }
  }

  lemma DirectTimestamp(pf: Platform, unit: TimeUnit, n: I64)
    ensures TimestampAt(pf, WriteTimestamp(unit, n), unit) == Ok(n)
    ensures !IsNull(WriteTimestamp(unit, n))
  {
    Pow10OfUnit(unit);
    var per := Pow10(Digits(unit));
    hide ToValue;
    ContentOfTag(1, WriteTimestamp(unit, n).inner);
    if n % per == 0 {
      var q := TruncDiv(n, per);
      ExactQuotient(n, per, q);
      CheckedPow10Range(Digits(unit));
      IntegerValue(q);
      hide FromValue;
      assert ExactParts(Integer(q)) == Some((q, 0));
      assert Rescale(q, 0, Digits(unit)) == Ok(n);
    } else {
      FractionParts(0 - Digits(unit), n, true);
      ContentOfTag(4, Fraction(0 - Digits(unit), n).inner);
      RescaleSameScale(n, Digits(unit));
    }
  }

  // ---- One number ----

  lemma TimeRoundTrip(unit: TimeUnit, n: int)
    requires InRange(TimeType(unit), n)
    ensures IsI64(Micros(unit, n))
    ensures TimeAt(Micros(unit, n), unit) == Ok(if unit == Nanosecond then TruncDiv(n, 1_000) * 1_000 else n)
  {
  }

  lemma NumberRoundTrip(pf: Platform, route: Route, ty: Type, n: int)
    requires InRange(ty, n)
    ensures var v := Carry(pf, route, WriteNumber(ty, n));
            && !IsNull(v)
            && ReadScalar(pf, ty, v) == if WideDecimal(route, ty, n) then Refused else Ok(Kept(pf, ty, NumCell(n)))
  {
    hide Carried, WriteTimestamp, TimestampAt, DecimalAt, DateAt, TimeAt, Micros, Fraction;
    if ty.IntegerType? {
      CarryLeaf(pf, route, Integer(n));
    } else if ty.DateType? {
      DateRoundTrip(pf, route, n);
    } else if ty.TimeType? {
      TimeRoundTrip(ty.unit, n);
      CarryLeaf(pf, route, Integer(Micros(ty.unit, n)));
    } else if ty.TimestampType? {
      TimestampRoundTrips(pf, route, ty.unit, n);
    } else {
      DecimalRoundTrip(pf, route, ty.scale, n);
    }
  }

  lemma DateRoundTrip(pf: Platform, route: Route, n: int)
    requires IsI32(n)
    ensures var v := Carry(pf, route, Tag(EPOCH_DAYS_TAG, Integer(n)));
            !IsNull(v) && DateAt(pf, v) == Ok(n)
  {
    ContentOfTag(EPOCH_DAYS_TAG, Integer(n));
    assert CborToMp(pf, Tag(100, Integer(n))) == CborToMp(pf, Integer(n));
  }

  // ---- Nested values travel part by part ----

  function CarryAll(pf: Platform, route: Route, items: seq<Cbor>): (r: seq<Cbor>)
    ensures |r| == |items|
  {
    seq(|items|, i requires 0 <= i < |items| => Carry(pf, route, items[i]))
  }

  function CarryEntries(pf: Platform, route: Route, entries: seq<Entry>): (r: seq<Entry>)
    ensures |r| == |entries|
  {
    seq(|entries|, i requires 0 <= i < |entries| =>
      Entry(Carry(pf, route, entries[i].key), Carry(pf, route, entries[i].val)))
  }

  lemma CarryArray(pf: Platform, route: Route, items: seq<Cbor>)
    ensures Carry(pf, route, Array(items)) == Array(CarryAll(pf, route, items))
  {
    if route == Direct {
      assert CarryAll(pf, route, items) == items;
    } else {
      CarriedItems(pf, items);
    }
  }

  lemma {:induction false} CarriedItems(pf: Platform, items: seq<Cbor>)
    ensures AllToCbor(pf, AllToMp(pf, items)) == CarryAll(pf, ViaMsgpack, items)
  {
    hide CborToMp, MpToCbor;
    if |items| > 0 {
      CarriedItems(pf, items[1..]);
      assert AllToMp(pf, items)[1..] == AllToMp(pf, items[1..]);
      assert CarryAll(pf, ViaMsgpack, items) == [Carried(pf, items[0])] + CarryAll(pf, ViaMsgpack, items[1..]);
    }
  }

  lemma CarryMap(pf: Platform, route: Route, entries: seq<Entry>)
    ensures Carry(pf, route, Map(entries)) == Map(CarryEntries(pf, route, entries))
  {
    if route == Direct {
      assert CarryEntries(pf, route, entries) == entries;
    } else {
      CarriedEntries(pf, entries);
    }
  }

  lemma {:induction false} CarriedEntries(pf: Platform, entries: seq<Entry>)
    ensures EntriesToCbor(pf, EntriesToMp(pf, entries)) == CarryEntries(pf, ViaMsgpack, entries)
  {
    hide CborToMp, MpToCbor;
    if |entries| > 0 {
      CarriedEntries(pf, entries[1..]);
      assert EntriesToMp(pf, entries)[1..] == EntriesToMp(pf, entries[1..]);
      var first := Entry(Carried(pf, entries[0].key), Carried(pf, entries[0].val));
      assert CarryEntries(pf, ViaMsgpack, entries) == [first] + CarryEntries(pf, ViaMsgpack, entries[1..]);
    }
  }

  // ---- Cells ----

  /** What a round trip yields. */
  ghost function Expected(pf: Platform, route: Route, ty: Type, c: Cell): Outcome<Cell> {
    if Uncarried(route, ty, c) then Refused else Ok(Kept(pf, ty, c))
  }

  /** For every column type nested to any depth with distinct STRUCT names, and every cell of it: reading back what was
      written gives the cell, with TIME_NS in whole microseconds; through MessagePack, a cell with a decimal mantissa in
      [-2^64, -2^63) is refused, never changed. */
  lemma {:induction false} CellRoundTrip(pf: Platform, route: Route, ty: Type, c: Cell)
    requires HasType(ty, c) && WellFormed(ty)
    ensures IsNull(Carry(pf, route, WriteCell(pf, ty, c))) <==> c == NullCell
    ensures ReadCell(pf, ty, Carry(pf, route, WriteCell(pf, ty, c))) == Expected(pf, route, ty, c)
    decreases ty, 4
  {
    if c.ListCell? {
      ListRoundTrip(pf, route, ty, c.items);
    } else if c.StructCell? {
      StructRoundTrip(pf, route, ty.fields, c.parts);
    } else if c.MapCell? {
      MapRoundTrip(pf, route, ty, c.pairs);
    } else if c.NumCell? {
      hide ReadScalar;
      NumberRoundTrip(pf, route, ty, c.n);
    } else {
      ScalarRoundTrip(pf, route, ty, c);
    }
  }

  lemma ScalarRoundTrip(pf: Platform, route: Route, ty: Type, c: Cell)
    requires HasType(ty, c)
    requires !c.ListCell? && !c.StructCell? && !c.MapCell? && !c.NumCell?
    ensures IsNull(Carry(pf, route, WriteCell(pf, ty, c))) <==> c == NullCell
    ensures ReadCell(pf, ty, Carry(pf, route, WriteCell(pf, ty, c))) == Expected(pf, route, ty, c)
  {
    CarryLeaf(pf, route, WriteCell(pf, ty, c));
  }

  lemma {:induction false} AllRoundTrip(pf: Platform, route: Route, ty: Type, items: seq<Cell>)
    requires WellFormed(ty) && forall c | c in items :: HasType(ty, c)
    ensures ReadAll(pf, ty, CarryAll(pf, route, WriteAll(pf, ty, items)))
            == if exists x | x in items :: Uncarried(route, ty, x) then Refused else Ok(KeptAll(pf, ty, items))
    decreases ty, 5
  {
    var vs := CarryAll(pf, route, WriteAll(pf, ty, items));
    forall i | 0 <= i < |items|
      ensures ReadCell(pf, ty, vs[i]) == Expected(pf, route, ty, items[i])
    {
      CellRoundTrip(pf, route, ty, items[i]);
    }
    AllExpected(pf, route, ty, items, vs);
  }

  lemma AllExpected(pf: Platform, route: Route, ty: Type, items: seq<Cell>, vs: seq<Cbor>)
    requires |vs| == |items|
    requires forall i | 0 <= i < |items| :: ReadCell(pf, ty, vs[i]) == Expected(pf, route, ty, items[i])
    ensures ReadAll(pf, ty, vs)
            == if exists x | x in items :: Uncarried(route, ty, x) then Refused else Ok(KeptAll(pf, ty, items))
  {
    hide ReadCell, ReadAll, Uncarried, Kept, KeptAll;
    if x :| x in items && Uncarried(route, ty, x) {
      var i :| 0 <= i < |items| && items[i] == x;
      assert ReadCell(pf, ty, vs[i]).Refused?;
    } else {
      assert ReadAll(pf, ty, vs).value == KeptAll(pf, ty, items);
    }
  }

  lemma {:induction false} ListRoundTrip(pf: Platform, route: Route, ty: Type, items: seq<Cell>)
    requires HasType(ty, ListCell(items)) && WellFormed(ty)
    ensures !IsNull(Carry(pf, route, WriteCell(pf, ty, ListCell(items))))
    ensures ReadCell(pf, ty, Carry(pf, route, WriteCell(pf, ty, ListCell(items))))
            == Expected(pf, route, ty, ListCell(items))
    decreases ty, 3
  {
    hide Carry, WriteAll, ReadAll, KeptAll, ReadScalar;
    AllRoundTrip(pf, route, ty.child, items);
    CarryArray(pf, route, WriteAll(pf, ty.child, items));
  }

  /** The first field that has the name of field `j`. */
  function FirstNamed(fields: seq<Field>, j: nat): (i: nat)
    requires j < |fields|
    ensures i <= j && fields[i].name == fields[j].name
    ensures forall k | 0 <= k < i :: fields[k].name != fields[j].name
  {
    if fields[0].name == fields[j].name then 0 else 1 + FirstNamed(fields[1..], j - 1)
  }

  /** Looking a field up by name finds the first field of that name: its own value exactly when no earlier field shares
      the name. */
  lemma {:induction false} LookupFirst(fields: seq<Field>, entries: seq<Entry>, j: nat)
    requires |entries| == |fields| && j < |fields|
    requires forall i | 0 <= i < |fields| :: entries[i].key == Text(fields[i].name)
    ensures Lookup(entries, fields[j].name) == entries[FirstNamed(fields, j)].val
    ensures FirstNamed(fields, j) == j <==> forall k | 0 <= k < j :: fields[k].name != fields[j].name
  {
    if fields[0].name != fields[j].name {
      LookupFirst(fields[1..], entries[1..], j - 1);
    }
  }

  /** Without distinct names the round trip fails: the second of two fields of one name comes back as the first. */
  lemma SharedName(pf: Platform, name: Utf8)
    ensures var ty := StructType([Field(name, BooleanType), Field(name, BooleanType)]);
            ReadCell(pf, ty, WriteCell(pf, ty, StructCell([BoolCell(true), BoolCell(false)])))
            == Ok(StructCell([BoolCell(true), BoolCell(true)]))
  {
    hide ReadFields, WriteParts, Lookup, FirstNamed, ReadScalar;
    var fields := [Field(name, BooleanType), Field(name, BooleanType)];
    var entries := WriteParts(pf, fields, [BoolCell(true), BoolCell(false)]);
    LookupFirst(fields, entries, 0);
    LookupFirst(fields, entries, 1);
    BoolRead(pf);
    assert ReadFields(pf, fields, entries).value == [BoolCell(true), BoolCell(true)];
  }

  lemma BoolRead(pf: Platform)
    ensures ReadCell(pf, BooleanType, WriteCell(pf, BooleanType, BoolCell(true))) == Ok(BoolCell(true))
  {
  }

  lemma {:induction false} HaveTypesAt(fields: seq<Field>, parts: seq<Cell>, j: nat)
    requires HaveTypes(fields, parts) && WellFormedAll(fields) && j < |fields|
    ensures |parts| == |fields| && HasType(fields[j].ty, parts[j]) && WellFormed(fields[j].ty)
  {
    if j > 0 {
      HaveTypesAt(fields[1..], parts[1..], j - 1);
    }
  }

  lemma {:induction false} StructRoundTrip(pf: Platform, route: Route, fields: seq<Field>, parts: seq<Cell>)
    requires HaveTypes(fields, parts) && WellFormed(StructType(fields))
    ensures var ty, c := StructType(fields), StructCell(parts);
            && !IsNull(Carry(pf, route, WriteCell(pf, ty, c)))
            && ReadCell(pf, ty, Carry(pf, route, WriteCell(pf, ty, c))) == Expected(pf, route, ty, c)
    decreases fields, 5
  {
    hide Carry, ReadCell, ReadScalar, Uncarried, Kept, Lookup, ReadFields;
    var entries := CarryEntries(pf, route, WriteParts(pf, fields, parts));
    CarryMap(pf, route, WriteParts(pf, fields, parts));
    forall j | 0 <= j < |fields|
      ensures entries[j].key == Text(fields[j].name)
      ensures ReadCell(pf, fields[j].ty, entries[j].val) == Expected(pf, route, fields[j].ty, parts[j])
    {
      HaveTypesAt(fields, parts, j);
      assert fields[j] in fields && fields[j].ty < fields[j];
      CarryLeaf(pf, route, Text(fields[j].name));
      CellRoundTrip(pf, route, fields[j].ty, parts[j]);
    }
    forall j | 0 <= j < |fields|
      ensures Lookup(entries, fields[j].name) == entries[j].val
    {
      LookupFirst(fields, entries, j);
    }
    FieldsExpected(pf, route, fields, parts, entries);
    StructExpected(pf, route, fields, parts, entries);
  }

  lemma StructExpected(pf: Platform, route: Route, fields: seq<Field>, parts: seq<Cell>, entries: seq<Entry>)
    requires |fields| == |parts|
    requires ReadFields(pf, fields, entries)
             == if UncarriedParts(route, fields, parts) then Refused else Ok(KeptParts(pf, fields, parts))
    ensures ReadCell(pf, StructType(fields), Map(entries)) == Expected(pf, route, StructType(fields), StructCell(parts))
  {
    hide ReadFields, KeptParts, ReadScalar, UncarriedParts;
  }

  lemma FieldsExpected(pf: Platform, route: Route, fields: seq<Field>, parts: seq<Cell>, entries: seq<Entry>)
    requires |fields| == |parts| == |entries|
    requires forall j | 0 <= j < |fields| ::
               ReadCell(pf, fields[j].ty, Lookup(entries, fields[j].name))
               == Expected(pf, route, fields[j].ty, parts[j])
    ensures ReadFields(pf, fields, entries)
            == if UncarriedParts(route, fields, parts) then Refused else Ok(KeptParts(pf, fields, parts))
  {
    hide ReadCell, ReadFields, Uncarried, Kept, KeptParts, Lookup;
    if j :| 0 <= j < |fields| && Uncarried(route, fields[j].ty, parts[j]) {
      assert ReadCell(pf, fields[j].ty, Lookup(entries, fields[j].name)).Refused?;
    } else {
      assert ReadFields(pf, fields, entries).value == KeptParts(pf, fields, parts);
    }
  }

  function KeyCells(pairs: seq<Pair>): (r: seq<Cell>)
    ensures |r| == |pairs|
  {
    seq(|pairs|, i requires 0 <= i < |pairs| => pairs[i].key)
  }

  function ValCells(pairs: seq<Pair>): (r: seq<Cell>)
    ensures |r| == |pairs|
  {
    seq(|pairs|, i requires 0 <= i < |pairs| => pairs[i].val)
  }

  /** The keys and the values of written pairs are the written keys and values. */
  lemma PairColumns(pf: Platform, route: Route, ty: Type, pairs: seq<Pair>)
    requires ty.MapType?
    ensures var entries := CarryEntries(pf, route, WritePairs(pf, ty, pairs));
            && KeysOf(entries) == CarryAll(pf, route, WriteAll(pf, ty.key, KeyCells(pairs)))
            && ValsOf(entries) == CarryAll(pf, route, WriteAll(pf, ty.val, ValCells(pairs)))
  {
    hide Carry, WriteCell;
  }

  lemma PairsKept(pf: Platform, ty: Type, pairs: seq<Pair>)
    requires ty.MapType?
    ensures Zip(KeptAll(pf, ty.key, KeyCells(pairs)), KeptAll(pf, ty.val, ValCells(pairs))) == KeptPairs(pf, ty, pairs)
  {
    hide Kept;
  }

  lemma {:induction false} MapRoundTrip(pf: Platform, route: Route, ty: Type, pairs: seq<Pair>)
    requires HasType(ty, MapCell(pairs)) && WellFormed(ty)
    ensures var c := MapCell(pairs);
            && !IsNull(Carry(pf, route, WriteCell(pf, ty, c)))
            && ReadCell(pf, ty, Carry(pf, route, WriteCell(pf, ty, c))) == Expected(pf, route, ty, c)
    decreases ty, 3
  {
    var entries := CarryEntries(pf, route, WritePairs(pf, ty, pairs));
    CarryMap(pf, route, WritePairs(pf, ty, pairs));
    PairColumns(pf, route, ty, pairs);
    PairCellsTyped(ty, pairs);
    AllRoundTrip(pf, route, ty.key, KeyCells(pairs));
    AllRoundTrip(pf, route, ty.val, ValCells(pairs));
    PairsKept(pf, ty, pairs);
    UncarriedPairs(route, ty, pairs);
    hide Carry, WritePairs, WriteAll, ReadAll, KeptAll, KeptPairs, ReadScalar, Uncarried, HasType;
    MapExpected(pf, route, ty, pairs, entries);
  }

  lemma PairCellsTyped(ty: Type, pairs: seq<Pair>)
    requires HasType(ty, MapCell(pairs))
    ensures forall c | c in KeyCells(pairs) :: HasType(ty.key, c) && c != NullCell
    ensures forall c | c in ValCells(pairs) :: HasType(ty.val, c)
  {
    forall i | 0 <= i < |pairs|
      ensures HasType(ty.key, pairs[i].key) && HasType(ty.val, pairs[i].val) && pairs[i].key != NullCell
    {
      assert pairs[i] in pairs;
    }
  }

  lemma UncarriedPairs(route: Route, ty: Type, pairs: seq<Pair>)
    requires ty.MapType?
    ensures Uncarried(route, ty, MapCell(pairs))
            <==> (exists x | x in KeyCells(pairs) :: Uncarried(route, ty.key, x))
                 || (exists x | x in ValCells(pairs) :: Uncarried(route, ty.val, x))
  {
    if x :| x in KeyCells(pairs) && Uncarried(route, ty.key, x) {
      var i :| 0 <= i < |pairs| && pairs[i].key == x;
      assert pairs[i] in pairs;
    }
    if x :| x in ValCells(pairs) && Uncarried(route, ty.val, x) {
      var i :| 0 <= i < |pairs| && pairs[i].val == x;
      assert pairs[i] in pairs;
    }
    if p :| p in pairs && (Uncarried(route, ty.key, p.key) || Uncarried(route, ty.val, p.val)) {
      var i :| 0 <= i < |pairs| && pairs[i] == p;
      assert KeyCells(pairs)[i] == p.key && ValCells(pairs)[i] == p.val;
    }
  }

  lemma MapExpected(pf: Platform, route: Route, ty: Type, pairs: seq<Pair>, entries: seq<Entry>)
    requires ty.MapType?
    requires forall c | c in KeyCells(pairs) :: c != NullCell
    requires var keys := KeyCells(pairs);
             ReadAll(pf, ty.key, KeysOf(entries))
             == if exists x | x in keys :: Uncarried(route, ty.key, x) then Refused else Ok(KeptAll(pf, ty.key, keys))
    requires var vals := ValCells(pairs);
             ReadAll(pf, ty.val, ValsOf(entries))
             == if exists x | x in vals :: Uncarried(route, ty.val, x) then Refused else Ok(KeptAll(pf, ty.val, vals))
    requires Uncarried(route, ty, MapCell(pairs))
             <==> (exists x | x in KeyCells(pairs) :: Uncarried(route, ty.key, x))
                  || (exists x | x in ValCells(pairs) :: Uncarried(route, ty.val, x))
    requires Zip(KeptAll(pf, ty.key, KeyCells(pairs)), KeptAll(pf, ty.val, ValCells(pairs))) == KeptPairs(pf, ty, pairs)
    ensures ReadCell(pf, ty, Map(entries)) == Expected(pf, route, ty, MapCell(pairs))
  {
    hide ReadAll, KeptAll, KeptPairs, ReadScalar, Uncarried;
    forall c | c in KeptAll(pf, ty.key, KeyCells(pairs))
      ensures c != NullCell
    {
      var i :| 0 <= i < |pairs| && KeptAll(pf, ty.key, KeyCells(pairs))[i] == c;
      assert KeyCells(pairs)[i] in KeyCells(pairs);
    }
  }
}
