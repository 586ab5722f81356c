/** What a CBOR value means as a cell of a target column type, one value at a time. This is the reference that the
    columnar reader is proved against. */
module ReadCells {
  import opened Base
  import opened Values
  import opened Bignum
  import opened Exact
  import opened Columns

  const SECS_PER_DAY: int := 86_400

  /** The first integer after which a double skips one. */
  const TWO_53: int := 0x20_0000_0000_0000

  // ---- Numbers ----

  /** An integer, or a float that is one. */
  function AsI128(pf: Platform, v: Cbor): Option<I128> {
    match Content(v)
    case Integer(n) => Some(n)
    case Float(f) => pf.integral(f)
    case _ => None
  }

  function AsF64(pf: Platform, v: Cbor): Option<F64> {
    match DecimalParts(v)
    case Some(parts) => Some(pf.ofDecimal(parts.0, parts.1))
    case None =>
      match Content(v)
      case Float(f) => Some(f)
      case Integer(n) => Some(pf.ofInt(n))
      case _ => None
  }

  /** The exact forms of a number: a decimal fraction, or an integer or bignum with exponent 0. */
  function ExactParts(v: Cbor): Option<(I128, int)> {
    match DecimalParts(v)
    case Some(parts) => Some(parts)
    case None =>
      match FromValue(v)
      case Some(n) => Some((n, 0))
      case None => None
  }

  /** `decimal_at`: the unscaled integer of a DECIMAL with `scale` fractional digits. A float may round, and so may an
      integer behind a tag, which is read through a float. */
  function DecimalAt(pf: Platform, v: Cbor, scale: int): Outcome<I128> {
    match ExactParts(v)
    case Some(parts) => Rescale(parts.0, parts.1, scale)
    case None =>
      var raw :- OrRefuse(AsF64(pf, v));
      var scaled :- OrRefuse(pf.scaled(raw, scale));
      if -TWO_127 < scaled < TWO_127 then Ok(scaled) else Refused
  }

  /** `timestamp_at`: an epoch instant as a count of `unit`, with the same two inexact forms below the tag 1. */
  function TimestampAt(pf: Platform, v: Cbor, unit: TimeUnit): Outcome<I64> {
    var inner := if v.Tag? && v.tag == 1 then v.inner else v;
    match ExactParts(inner)
    case Some(parts) =>
      var scaled :- Rescale(parts.0, parts.1, Digits(unit));
      if IsI64(scaled) then Ok(scaled) else Refused
    case None =>
      var secs :- OrRefuse(AsF64(pf, inner));
      var scaled :- OrRefuse(pf.scaled(secs, Digits(unit)));
      if IsI64(scaled) then Ok(scaled) else Refused
  }

  function OrRefuse<T>(o: Option<T>): Outcome<T> {
    match o
    case Some(v) => Ok(v)
    case None => Refused
  }

  /** A DATE: the day of a tag-1 instant, otherwise a day count, narrowed to 64 bits before its range check. */
  function DateAt(pf: Platform, v: Cbor): Outcome<int> {
    var days :-
      if v.Tag? && v.tag == 1 then
        var secs :- TimestampAt(pf, v, Second);
        Ok(secs / SECS_PER_DAY)
      else
        var n :- OrRefuse(AsI128(pf, v));
        Ok(WrapI64(n));
    if IsI32(days) then Ok(days) else Refused
  }

  /** A TIME in the column's unit from microseconds since midnight. */
  function TimeAt(us: I128, unit: TimeUnit): Outcome<int> {
    match unit
    case Second => var t := TruncDiv(us, 1_000_000); if IsI32(t) then Ok(t) else Refused
    case Millisecond => var t := TruncDiv(us, 1_000); if IsI32(t) then Ok(t) else Refused
    case Microsecond => if IsI64(us) then Ok(us) else Refused
    case Nanosecond => if IsI64(us) && IsI64(us * 1_000) then Ok(us * 1_000) else Refused
  }

  /** `bytes_of` for a value that is not null. */
  function BytesOf(v: Cbor): Outcome<Bytes> {
    match Content(v)
    case Blob(b) => Ok(b)
    case Text(s) => Ok(s)
    case _ => Refused
  }

  /** A value that is not null, read as a scalar of the type. */
  function ReadScalar(pf: Platform, ty: Type, v: Cbor): Outcome<Cell> {
    match ty
    case BooleanType => if Content(v).Bool? then Ok(BoolCell(Content(v).b)) else Refused
    case IntegerType(w) =>
      var n :- OrRefuse(AsI128(pf, v));
      if Low(w) <= n <= High(w) then Ok(NumCell(n)) else Refused
    case Float32Type =>
      var f :- OrRefuse(AsF64(pf, v));
      Ok(SingleCell(pf.narrow(f)))
    case Float64Type =>
      var f :- OrRefuse(AsF64(pf, v));
      Ok(DoubleCell(f))
    case DateType =>
      var days :- DateAt(pf, v);
      Ok(NumCell(days))
    case TimeType(unit) =>
      var us :- OrRefuse(AsI128(pf, v));
      var t :- TimeAt(us, unit);
      Ok(NumCell(t))
    case TimestampType(unit) =>
      var t :- TimestampAt(pf, v, unit);
      Ok(NumCell(t))
    case DecimalType(scale) =>
      var n :- DecimalAt(pf, v, scale);
      Ok(NumCell(n))
    case TextType => Ok(TextCell(if Content(v).Text? then Content(v).s else pf.jsonText(Content(v))))
    case BinaryType =>
      var b :- BytesOf(v);
      Ok(BytesCell(b))
    case FixedBinaryType(size) =>
      var b :- BytesOf(v);
      if |b| == size then Ok(BytesCell(b)) else Refused
    case _ => Refused
  }

  // ---- Nested types ----

  /** The value under the first key that is the text `name`, tags aside; null when there is none. */
  function Lookup(entries: seq<Entry>, name: Utf8): Cbor {
    if |entries| == 0 then Null
    else if Content(entries[0].key) == Text(name) then entries[0].val
    else Lookup(entries[1..], name)
  }

  function KeysOf(entries: seq<Entry>): (r: seq<Cbor>)
    ensures |r| == |entries|
  {
    seq(|entries|, i requires 0 <= i < |entries| => entries[i].key)
  }

  function ValsOf(entries: seq<Entry>): (r: seq<Cbor>)
    ensures |r| == |entries|
  {
    seq(|entries|, i requires 0 <= i < |entries| => entries[i].val)
  }

  /** One value as a cell of the type, or refused. */
  function ReadCell(pf: Platform, ty: Type, v: Cbor): (r: Outcome<Cell>)
    ensures IsNull(v) ==> r == Ok(NullCell)
    decreases ty, 0
  {
    if ty.NullType? || IsNull(v) then Ok(NullCell) else
      match ty
      case ListType(child) =>
        if !Content(v).Array? then Refused else
          var items :- ReadAll(pf, child, Content(v).items);
          Ok(ListCell(items))
      case FixedListType(child, size) =>
        if !Content(v).Array? || |Content(v).items| != size then Refused else
          var items :- ReadAll(pf, child, Content(v).items);
          Ok(ListCell(items))
      case StructType(fields) =>
        if !Content(v).Map? then Refused else
          var parts :- ReadFields(pf, fields, Content(v).entries);
          Ok(StructCell(parts))
      case MapType(key, val) =>
        if !Content(v).Map? then Refused else
          var keys :- ReadAll(pf, key, KeysOf(Content(v).entries));
          var vals :- ReadAll(pf, val, ValsOf(Content(v).entries));
          if NullCell in keys then Refused else Ok(MapCell(Zip(keys, vals)))
      case _ => ReadScalar(pf, ty, v)
  }

  /** Every value of a list, or a refusal when one of them is refused. */
  function ReadAll(pf: Platform, ty: Type, vs: seq<Cbor>): (r: Outcome<seq<Cell>>)
    ensures r.Ok? <==> forall i | 0 <= i < |vs| :: ReadCell(pf, ty, vs[i]).Ok?
    ensures r.Ok? ==> |r.value| == |vs| && forall i | 0 <= i < |vs| :: r.value[i] == ReadCell(pf, ty, vs[i]).value
    decreases ty, |vs|
  {
    if |vs| == 0 then Ok([]) else
      var first :- ReadCell(pf, ty, vs[0]);
      var rest :- ReadAll(pf, ty, vs[1..]);
      Ok([first] + rest)
  }

  function ReadFields(pf: Platform, fields: seq<Field>, entries: seq<Entry>): (r: Outcome<seq<Cell>>)
    ensures r.Ok? <==>
            forall j | 0 <= j < |fields| :: ReadCell(pf, fields[j].ty, Lookup(entries, fields[j].name)).Ok?
    ensures r.Ok? ==>
            && |r.value| == |fields|
            && forall j | 0 <= j < |fields| ::
                 r.value[j] == ReadCell(pf, fields[j].ty, Lookup(entries, fields[j].name)).value
    decreases fields, 0
  {
    if |fields| == 0 then Ok([]) else
      assert fields[0].ty < fields[0];
      var first :- ReadCell(pf, fields[0].ty, Lookup(entries, fields[0].name));
      var rest :- ReadFields(pf, fields[1..], entries);
      Ok([first] + rest)
  }

  // ---- Reading lands on the type ----

  /** Whatever is read belongs to the target type. */
  lemma {:induction false} ReadCellTyped(pf: Platform, ty: Type, v: Cbor)
    ensures ReadCell(pf, ty, v).Ok? ==> HasType(ty, ReadCell(pf, ty, v).value)
    decreases ty, 0
  {
    hide ReadScalar, ReadAll, ReadFields, HasType;
    if ty.NullType? || IsNull(v) || ReadCell(pf, ty, v).Refused? {
      NullTyped(ty);
    } else if ty.ListType? || ty.FixedListType? {
      ReadAllTyped(pf, ty.child, Content(v).items);
      ListTyped(ty, ReadAll(pf, ty.child, Content(v).items).value);
    } else if ty.StructType? {
      ReadFieldsTyped(pf, ty.fields, Content(v).entries);
      StructTyped(ty, ReadFields(pf, ty.fields, Content(v).entries).value);
    } else if ty.MapType? {
      var keys, vals := KeysOf(Content(v).entries), ValsOf(Content(v).entries);
      ReadAllTyped(pf, ty.key, keys);
      ReadAllTyped(pf, ty.val, vals);
      ZipTyped(ty, ReadAll(pf, ty.key, keys).value, ReadAll(pf, ty.val, vals).value);
    } else {
      ReadScalarTyped(pf, ty, v);
    }
  }

  lemma ListTyped(ty: Type, items: seq<Cell>)
    requires ty.ListType? || (ty.FixedListType? && |items| == ty.size)
    requires forall c | c in items :: HasType(ty.child, c)
    ensures HasType(ty, ListCell(items))
  {
  }

  lemma StructTyped(ty: Type, parts: seq<Cell>)
    requires ty.StructType? && HaveTypes(ty.fields, parts)
    ensures HasType(ty, StructCell(parts))
  {
  }

  lemma ReadScalarTyped(pf: Platform, ty: Type, v: Cbor)
    ensures ReadScalar(pf, ty, v).Ok? ==> HasType(ty, ReadScalar(pf, ty, v).value)
  {
  }

  lemma ZipTyped(ty: Type, keys: seq<Cell>, vals: seq<Cell>)
    requires ty.MapType? && |keys| == |vals| && NullCell !in keys
    requires forall c | c in keys :: HasType(ty.key, c)
    requires forall c | c in vals :: HasType(ty.val, c)
    ensures HasType(ty, MapCell(Zip(keys, vals)))
  {
    forall p | p in Zip(keys, vals)
      ensures HasType(ty.key, p.key) && HasType(ty.val, p.val) && p.key != NullCell
    {
      assert p.key in keys && p.val in vals;
    }
  }

  lemma {:induction false} ReadAllTyped(pf: Platform, ty: Type, vs: seq<Cbor>)
    ensures ReadAll(pf, ty, vs).Ok? ==> forall c | c in ReadAll(pf, ty, vs).value :: HasType(ty, c)
    decreases ty, 1
  {
    forall i | 0 <= i < |vs|
      ensures ReadCell(pf, ty, vs[i]).Ok? ==> HasType(ty, ReadCell(pf, ty, vs[i]).value)
    {
      ReadCellTyped(pf, ty, vs[i]);
    }
  }

  lemma {:induction false} ReadFieldsTyped(pf: Platform, fields: seq<Field>, entries: seq<Entry>)
    ensures ReadFields(pf, fields, entries).Ok? ==> HaveTypes(fields, ReadFields(pf, fields, entries).value)
    decreases fields, 0
  {
    if |fields| > 0 {
      assert fields[0].ty < fields[0];
      ReadCellTyped(pf, fields[0].ty, Lookup(entries, fields[0].name));
      ReadFieldsTyped(pf, fields[1..], entries);
    }
  }

  // ---- A list of rows splits anywhere ----

  /** Reading two lists one after the other succeeds exactly when both can be read, and gives their cells in a row. */
  lemma {:induction false} ReadAllAppend(pf: Platform, ty: Type, xs: seq<Cbor>, ys: seq<Cbor>)
    ensures var both, x, y := ReadAll(pf, ty, xs + ys), ReadAll(pf, ty, xs), ReadAll(pf, ty, ys);
            && (both.Ok? <==> x.Ok? && y.Ok?)
            && (both.Ok? ==> both.value == x.value + y.value)
    decreases |xs|
  {
    hide ReadCell, ReadAll;
    if |xs| == 0 {
      assert xs + ys == ys;
    } else {
      var v, rest := xs[0], xs[1..];
      assert xs == [v] + rest && xs + ys == [v] + (rest + ys);
      ReadAllAppend(pf, ty, rest, ys);
      ReadAllCons(pf, ty, v, rest);
      ReadAllCons(pf, ty, v, rest + ys);
    }
  }

  lemma ReadAllCons(pf: Platform, ty: Type, v: Cbor, vs: seq<Cbor>)
    ensures ReadAll(pf, ty, [v] + vs)
            == if ReadCell(pf, ty, v).Ok? && ReadAll(pf, ty, vs).Ok?
               then Ok([ReadCell(pf, ty, v).value] + ReadAll(pf, ty, vs).value) else Refused
  {
    hide ReadCell;
    assert ([v] + vs)[1..] == vs;
  }

  // ---- Exact or refused ----

  /** An integer behind a tag. Tags are transparent to its reading, but not to the exact forms. */
  predicate TaggedInteger(v: Cbor) {
    v.Tag? && Content(v).Integer?
  }

  /** The mantissa and exponent of the number in a value without a float. */
  function Denoted(v: Cbor): Option<(int, int)> {
    match ExactParts(v)
    case Some(parts) => Some((parts.0, parts.1))
    case None => if Content(v).Integer? then Some((Content(v).n, 0)) else None
  }

  /** Below a tag 1, the value an instant is read from. */
  function InstantOf(v: Cbor): Cbor {
    if v.Tag? && v.tag == 1 then v.inner else v
  }

  /** The reading is the number in the value, exactly. */
  ghost predicate Denotes(v: Cbor, scale: int, r: int) {
    Denoted(v).Some? && SameNumber(Denoted(v).value.0, Denoted(v).value.1, scale, r)
  }

  /** What is neither exact nor a float: a tagged integer, which has a float form, and what has none. */
  lemma InexactForms(pf: Platform, v: Cbor)
    requires !Content(v).Float?
    ensures ExactParts(v).None? ==> AsF64(pf, v) == if TaggedInteger(v) then Some(pf.ofInt(Content(v).n)) else None
    ensures TaggedInteger(v) ==> ExactParts(v).None?
    ensures Content(v).Integer? && !TaggedInteger(v) ==> ExactParts(v).Some?
  {
  }

  /** DECIMAL, on every value without a float. A tagged integer is read through its float. Any other value is read as
      the one integer denoting exactly its number, and a refusal means that there is none (or a zero moved by more than
      38 digits). */
  lemma DecimalExact(pf: Platform, v: Cbor, scale: int)
    requires !Content(v).Float?
    ensures var r := DecimalAt(pf, v, scale);
            if TaggedInteger(v) then r.Ok? ==> pf.scaled(pf.ofInt(Content(v).n), scale) == Some(r.value)
            else
              match Denoted(v)
              case None => r.Refused?
              case Some((m, e)) =>
                && (r.Ok? ==> SameNumber(m, e, scale, r.value))
                && (r.Ok? <==> (exists n: I128 :: SameNumber(m, e, scale, n)) && (m == 0 ==> -38 <= e + scale <= 38))
  {
    hide ExactParts, AsF64, Content, Rescale, SameNumber;
    InexactForms(pf, v);
    if ExactParts(v).Some? {
      RescaleExact(ExactParts(v).value.0, ExactParts(v).value.1, scale);
    }
  }

  /** TIMESTAMP likewise, within 64 bits, of the value below a tag 1. */
  lemma TimestampExact(pf: Platform, v: Cbor, unit: TimeUnit)
    requires !Content(v).Float?
    ensures var r, inner := TimestampAt(pf, v, unit), InstantOf(v);
            if TaggedInteger(inner) then r.Ok? ==> pf.scaled(pf.ofInt(Content(inner).n), Digits(unit)) == Some(r.value)
            else
              match Denoted(inner)
              case None => r.Refused?
              case Some((m, e)) =>
                && (r.Ok? ==> SameNumber(m, e, Digits(unit), r.value))
                && (r.Ok? <==> (exists n: I64 :: SameNumber(m, e, Digits(unit), n))
                               && (m == 0 ==> -38 <= e + Digits(unit) <= 38))
  {
    hide ExactParts, AsF64, Rescale, SameNumber;
    var inner := InstantOf(v);
    assert Content(inner) == Content(v);
    InexactForms(pf, inner);
    if ExactParts(inner).Some? {
      var m, e := ExactParts(inner).value.0, ExactParts(inner).value.1;
      RescaleExact(m, e, Digits(unit));
      forall n: I64 | SameNumber(m, e, Digits(unit), n)
        ensures exists k: I128 :: SameNumber(m, e, Digits(unit), k) && k == n
      {
        var k: I128 := n;
        assert SameNumber(m, e, Digits(unit), k);
      }
    }
  }

  /** For every value without a float: DECIMAL reading is exact or refused whatever the platform's floats do, exactly
      when the value is not a tagged integer. */
  lemma DecimalExactIff(v: Cbor, scale: int)
    requires !Content(v).Float?
    ensures (forall pf: Platform :: DecimalAt(pf, v, scale).Ok? ==> Denotes(v, scale, DecimalAt(pf, v, scale).value))
            <==> !TaggedInteger(v)
  {
    if TaggedInteger(v) {
      var wrong := if Denotes(v, scale, 0) then 1 else 0;
      NotBoth(v, scale);
      var pf := Scaling(wrong);
      InexactForms(pf, v);
      assert DecimalAt(pf, v, scale) == Ok(wrong);
    } else {
      forall pf: Platform
        ensures DecimalAt(pf, v, scale).Ok? ==> Denotes(v, scale, DecimalAt(pf, v, scale).value)
      {
        DecimalExact(pf, v, scale);
      }
    }
  }

  /** TIMESTAMP likewise: exactly when the value below a tag 1 is not a tagged integer. */
  lemma TimestampExactIff(v: Cbor, unit: TimeUnit)
    requires !Content(v).Float?
    ensures (forall pf: Platform ::
               TimestampAt(pf, v, unit).Ok? ==> Denotes(InstantOf(v), Digits(unit), TimestampAt(pf, v, unit).value))
            <==> !TaggedInteger(InstantOf(v))
  {
    var inner := InstantOf(v);
    assert Content(inner) == Content(v);
    if TaggedInteger(inner) {
      var wrong := if Denotes(inner, Digits(unit), 0) then 1 else 0;
      NotBoth(inner, Digits(unit));
      var pf := Scaling(wrong);
      InexactForms(pf, inner);
      assert TimestampAt(pf, v, unit) == Ok(wrong);
    } else {
      forall pf: Platform
        ensures TimestampAt(pf, v, unit).Ok? ==> Denotes(inner, Digits(unit), TimestampAt(pf, v, unit).value)
      {
        TimestampExact(pf, v, unit);
      }
    }
  }

  /** A platform whose scaled floats are all `n`. */
  function Scaling(n: int): Platform {
    Platform(_ => 0, (_, _) => 0, _ => None, (_, _) => Some(n), _ => None, _ => 0, _ => 0, _ => [])
  }

  lemma NotBoth(v: Cbor, scale: int)
    ensures !(Denotes(v, scale, 0) && Denotes(v, scale, 1))
  {
    if Denoted(v).Some? {
      OneNumber(Denoted(v).value.0, Denoted(v).value.1, scale, 0, 1);
    }
  }

  /** On a machine with IEEE doubles, 2^53 + 1 behind any tag is read as 2^53, as a DECIMAL and as an instant in
      seconds, with or without a tag 1 around it; the bare integer is read as itself. */
  lemma TaggedIntegerRounds(pf: Platform, tag: U64)
    requires pf.ofInt(TWO_53 + 1) == pf.ofInt(TWO_53) && pf.scaled(pf.ofInt(TWO_53), 0) == Some(TWO_53)
    ensures var v := Tag(tag, Integer(TWO_53 + 1));
            && ReadCell(pf, DecimalType(0), v) == Ok(NumCell(TWO_53))
            && (tag != 1 ==> ReadCell(pf, TimestampType(Second), v) == Ok(NumCell(TWO_53)))
            && ReadCell(pf, TimestampType(Second), Tag(1, v)) == Ok(NumCell(TWO_53))
    ensures ReadCell(pf, DecimalType(0), Integer(TWO_53 + 1)) == Ok(NumCell(TWO_53 + 1))
  {
    var v := Tag(tag, Integer(TWO_53 + 1));
    InexactForms(pf, v);
    assert ExactParts(Integer(TWO_53 + 1)) == Some((TWO_53 + 1, 0));
    RescaleSameScale(TWO_53 + 1, 0);
    assert Content(Tag(1, v)) == Integer(TWO_53 + 1);
    hide ExactParts, Rescale, AsF64;
    assert DecimalAt(pf, v, 0) == Ok(TWO_53);
  }

  // ---- Dates and times ----

  /** A day count is right or refused, except that the narrowing cast wraps a count far outside 64 bits into another
      32-bit day. */
  lemma DateExactIff(pf: Platform, v: Cbor, n: I128)
    requires !(v.Tag? && v.tag == 1) && AsI128(pf, v) == Some(n)
    ensures DateAt(pf, v).Ok? <==> IsI32(WrapI64(n))
    ensures DateAt(pf, v).Ok? ==> (DateAt(pf, v).value - n) % TWO_64 == 0
    ensures (DateAt(pf, v).Ok? ==> DateAt(pf, v).value == n) <==> IsI32(n) || !IsI32(WrapI64(n))
  {
  }

  /** Among native integers, these are the counts that are right or refused. */
  lemma DateExactNative(pf: Platform, n: CborInt)
    ensures var r := DateAt(pf, Integer(n));
            (r.Ok? ==> r.value == n) <==> -TWO_64 + 0x8000_0000 <= n < TWO_64 - 0x8000_0000
    ensures var r := DateAt(pf, Integer(n));
            r.Ok? <==> IsI32(n) || n < -TWO_64 + 0x8000_0000 || n >= TWO_64 - 0x8000_0000
  {
  }

  /** The largest native integer is read as the day before the epoch. */
  lemma DateWraps(pf: Platform)
    ensures DateAt(pf, Integer(TWO_64 - 1)) == Ok(-1)
  {
  }

  /** The day contains the second. */
  predicate DayHolds(day: int, secs: int) {
    day * SECS_PER_DAY <= secs < (day + 1) * SECS_PER_DAY
  }

  /** A DATE read from an exact instant is the day that contains it, also before the epoch; the instant must be a whole
      number of seconds. */
  lemma DateOfInstant(pf: Platform, inner: Cbor, day: int)
    requires ExactParts(inner).Some?
    ensures var (m, e) := ExactParts(inner).value;
            DateAt(pf, Tag(1, inner)) == Ok(day)
            <==> && IsI32(day) && (exists secs: I64 :: SameNumber(m, e, 0, secs) && DayHolds(day, secs))
                 && (m == 0 ==> -38 <= e <= 38)
  {
    hide ExactParts, TimestampAt, SameNumber, DayHolds;
    var m, e := ExactParts(inner).value.0, ExactParts(inner).value.1;
    WholeSeconds(pf, inner);
    var r := TimestampAt(pf, Tag(1, inner), Second);
    if r.Ok? {
      DayOf(r.value, day);
      var read: I64 := r.value;
      if secs: I64 :| SameNumber(m, e, 0, secs) && DayHolds(day, secs) {
        OneNumber(m, e, 0, secs, read);
      }
      assert DayHolds(day, read) ==> SameNumber(m, e, 0, read) && DayHolds(day, read);
    }
  }

  lemma WholeSeconds(pf: Platform, inner: Cbor)
    requires ExactParts(inner).Some?
    ensures var m, e := ExactParts(inner).value.0, ExactParts(inner).value.1;
            var r := TimestampAt(pf, Tag(1, inner), Second);
            && (r.Ok? ==> SameNumber(m, e, 0, r.value))
            && (r.Ok? <==> (exists n: I64 :: SameNumber(m, e, 0, n)) && (m == 0 ==> -38 <= e <= 38))
  {
    hide ExactParts, TimestampAt, SameNumber;
    ExactIsNotFloat(inner);
    assert Content(Tag(1, inner)) == Content(inner);
    assert Digits(Second) == 0;
    TimestampExact(pf, Tag(1, inner), Second);
  }

  lemma DayOf(secs: int, day: int)
    ensures secs / SECS_PER_DAY == day <==> DayHolds(day, secs)
  {
  }

  lemma ExactIsNotFloat(v: Cbor)
    requires ExactParts(v).Some?
    ensures !Content(v).Float? && !TaggedInteger(v)
    ensures Denoted(v) == Some((ExactParts(v).value.0 as int, ExactParts(v).value.1))
  {
  }

  /** An instant between two seconds is refused as a DATE, although a day contains it. */
  lemma HalfSecondRefused(pf: Platform)
    ensures ReadCell(pf, DateType, Tag(1, Tag(4, Array([Integer(-1), Integer(15)])))) == Refused
  {
    var fraction := Tag(4, Array([Integer(-1), Integer(15)]));
    assert ExactParts(fraction) == Some((15, -1));
    assert Pow10(1) == 10;
    CheckedPow10Range(1);
    assert Content(Tag(1, fraction)) == Array([Integer(-1), Integer(15)]);
  }

  /** `t` is the microsecond count in the unit, cut towards midnight when the unit is coarser. */
  predicate CutTo(us: int, unit: TimeUnit, t: int) {
    if us >= 0 then t * 1_000_000 <= us * Pow10(Digits(unit)) < (t + 1) * 1_000_000
    else (t - 1) * 1_000_000 < us * Pow10(Digits(unit)) <= t * 1_000_000
  }

  /** A TIME is the microsecond count cut to the column's unit, whenever that fits. */
  lemma TimeCut(us: I128, unit: TimeUnit, t: int)
    ensures TimeAt(us, unit) == Ok(t)
            <==> CutTo(us, unit, t) && InRange(TimeType(unit), t) && IsI64(if unit == Nanosecond then us else t)
  {
    hide *;
    if unit == Second {
      CutSecond(us, t);
    } else if unit == Millisecond {
      CutMillisecond(us, t);
    } else {
      CutFiner(us, unit, t);
    }
  }

  lemma CutSecond(us: I128, t: int)
    ensures TimeAt(us, Second) == Ok(t) <==> CutTo(us, Second, t) && InRange(TimeType(Second), t) && IsI64(t)
  {
    hide TruncDiv, Pow10;
    PowersOfUnits();
    CutBySecond(us, t);
  }

  lemma CutMillisecond(us: I128, t: int)
    ensures TimeAt(us, Millisecond) == Ok(t)
            <==> CutTo(us, Millisecond, t) && InRange(TimeType(Millisecond), t) && IsI64(t)
  {
    hide TruncDiv, Pow10;
    PowersOfUnits();
    CutByMillisecond(us, t);
  }

  lemma CutFiner(us: I128, unit: TimeUnit, t: int)
    requires unit == Microsecond || unit == Nanosecond
    ensures TimeAt(us, unit) == Ok(t)
            <==> CutTo(us, unit, t) && InRange(TimeType(unit), t) && IsI64(if unit == Nanosecond then us else t)
  {
    hide TruncDiv, Pow10;
    PowersOfUnits();
  }

  lemma PowersOfUnits()
    ensures Pow10(0) == 1 && Pow10(3) == 1_000 && Pow10(6) == 1_000_000 && Pow10(9) == 1_000_000_000
  {
    assert Pow10(3) == 1_000 && Pow10(6) == 1_000_000;
    Pow10Sum(3, 6);
  }

  lemma CutBySecond(us: int, t: int)
    ensures us >= 0 ==> (TruncDiv(us, 1_000_000) == t <==> t * 1_000_000 <= us < (t + 1) * 1_000_000)
    ensures us < 0 ==> (TruncDiv(us, 1_000_000) == t <==> (t - 1) * 1_000_000 < us <= t * 1_000_000)
  {
  }

  lemma CutByMillisecond(us: int, t: int)
    ensures us >= 0 ==> (TruncDiv(us, 1_000) == t <==> t * 1_000 <= us < (t + 1) * 1_000)
    ensures us < 0 ==> (TruncDiv(us, 1_000) == t <==> (t - 1) * 1_000 < us <= t * 1_000)
  {
  }
}
