/** What each form of a CBOR value is read as, type by type, behind any stack of tags. */
module ReadForms {
  import opened Base
  import opened Values
  import opened Bignum
  import opened Exact
  import opened Columns
  import opened ReadCells

  /** Neither a tag nor null. */
  predicate Bare(v: Cbor) {
    !v.Tag? && !v.Null?
  }

  lemma BehindTags(tags: seq<U64>, v: Cbor)
    requires Bare(v)
    ensures Content(Tagged(tags, v)) == v && !IsNull(Tagged(tags, v))
  {
    ContentOfTagged(tags, v);
  }

  /** Null is NULL in every type, tagged or not, and everything is NULL in a column of the null type. */
  lemma NullForms(pf: Platform, ty: Type, tags: seq<U64>, v: Cbor)
    ensures ReadCell(pf, ty, Tagged(tags, Null)) == Ok(NullCell)
    ensures ReadCell(pf, NullType, v) == Ok(NullCell)
  {
    ContentOfTagged(tags, Null);
  }

  // ---- Integers, days, times ----

  /** The range of an integer type. */
  predicate InWidth(w: IntType, n: int) {
    match w
    case I8 => -128 <= n <= 127
    case I16 => -32_768 <= n <= 32_767
    case I32 => -2_147_483_648 <= n <= 2_147_483_647
    case I64 => -9_223_372_036_854_775_808 <= n <= 9_223_372_036_854_775_807
    case U8 => 0 <= n <= 255
    case U16 => 0 <= n <= 65_535
    case U32 => 0 <= n <= 4_294_967_295
    case U64 => 0 <= n <= 18_446_744_073_709_551_615
  }

  /** An integer in range, or refused. */
  predicate ReadsInteger(r: Outcome<Cell>, w: IntType, n: int) {
    r == if InWidth(w, n) then Ok(NumCell(n)) else Refused
  }

  /** An integer column takes integers and floats that are integers, when they are in range, and nothing else. */
  lemma IntegerForms(pf: Platform, w: IntType, tags: seq<U64>, v: Cbor)
    requires Bare(v)
    ensures var r := ReadCell(pf, IntegerType(w), Tagged(tags, v));
            match v
            case Integer(n) => ReadsInteger(r, w, n)
            case Float(f) =>
              (match pf.integral(f)
               case Some(n) => ReadsInteger(r, w, n)
               case None => r.Refused?)
            case _ => r.Refused?
  {
    BehindTags(tags, v);
  }

  /** A day count: the 32-bit day that is the count modulo 2^64, or refused when there is none. */
  ghost predicate ReadsDay(r: Outcome<Cell>, n: int) {
    && (r.Ok? ==> r.value.NumCell?)
    && forall day: int :: r == Ok(NumCell(day))
         <==> InWidth(I32, day) && (day - n) % 18_446_744_073_709_551_616 == 0
  }

  /** Outside a tag 1, a DATE column takes day counts: integers, and floats that are integers. */
  lemma DateForms(pf: Platform, tags: seq<U64>, v: Cbor)
    requires Bare(v) && (|tags| > 0 ==> tags[0] != 1)
    ensures var r := ReadCell(pf, DateType, Tagged(tags, v));
            match v
            case Integer(n) => ReadsDay(r, n)
            case Float(f) =>
              (match pf.integral(f)
               case Some(n) => ReadsDay(r, n)
               case None => r.Refused?)
            case _ => r.Refused?
  {
    hide ReadsDay, WrapI64;
    BehindTags(tags, v);
    match v
    case Integer(n) => DayRead(n);
    case Float(f) =>
      if pf.integral(f).Some? {
        DayRead(pf.integral(f).value);
      }
    case _ =>
  }

  lemma DayRead(n: int)
    ensures ReadsDay(if IsI32(WrapI64(n)) then Ok(NumCell(WrapI64(n))) else Refused, n)
  {
    hide WrapI64;
    forall day: int
      ensures IsI32(WrapI64(n)) && WrapI64(n) == day
              <==> InWidth(I32, day) && (day - n) % 18_446_744_073_709_551_616 == 0
    {
      SameWrap(day, n);
    }
  }

  lemma SameWrap(day: int, n: int)
    ensures IsI64(day) ==> (WrapI64(n) == day <==> (day - n) % TWO_64 == 0)
  {
  }

  /** The count of `perSecond` units a second that `us` microseconds are, cut towards midnight. */
  predicate CutUnits(us: int, perSecond: int, t: int) {
    if us >= 0 then t * 1_000_000 <= us * perSecond < (t + 1) * 1_000_000
    else (t - 1) * 1_000_000 < us * perSecond <= t * 1_000_000
  }

  function PerSecond(unit: TimeUnit): int {
    match unit
    case Second => 1
    case Millisecond => 1_000
    case Microsecond => 1_000_000
    case Nanosecond => 1_000_000_000
  }

  /** A time of day: 32 bits for seconds and milliseconds, otherwise 64. */
  ghost predicate ReadsTime(r: Outcome<Cell>, unit: TimeUnit, us: int) {
    && (r.Ok? ==> r.value.NumCell?)
    && forall t: int :: r == Ok(NumCell(t))
         <==> CutUnits(us, PerSecond(unit), t)
              && InWidth(if unit == Second || unit == Millisecond then I32 else I64, t)
  }

  lemma TimeRead(us: I128, unit: TimeUnit)
    ensures var r := TimeAt(us, unit);
            ReadsTime(if r.Ok? then Ok(NumCell(r.value)) else Refused, unit, us)
  {
    hide TimeAt, Pow10;
    UnitPower(unit);
    var r := TimeAt(us, unit);
    forall t: int
      ensures r == Ok(t) <==> CutUnits(us, PerSecond(unit), t)
                              && InWidth(if unit == Second || unit == Millisecond then I32 else I64, t)
    {
      TimeCut(us, unit, t);
    }
  }

  lemma UnitPower(unit: TimeUnit)
    ensures Pow10(Digits(unit)) == PerSecond(unit)
  {
    PowersOfUnits();
  }

  /** A TIME column takes microseconds since midnight: integers, and floats that are integers. */
  lemma TimeForms(pf: Platform, unit: TimeUnit, tags: seq<U64>, v: Cbor)
    requires Bare(v)
    ensures var r := ReadCell(pf, TimeType(unit), Tagged(tags, v));
            match v
            case Integer(n) => ReadsTime(r, unit, n)
            case Float(f) =>
              (match pf.integral(f)
               case Some(n) => ReadsTime(r, unit, n)
               case None => r.Refused?)
            case _ => r.Refused?
  {
    hide TimeAt, ReadsTime;
    BehindTags(tags, v);
    match v
    case Integer(n) => TimeRead(n, unit);
    case Float(f) =>
      if pf.integral(f).Some? {
        TimeRead(pf.integral(f).value, unit);
      }
    case _ =>
  }

  // ---- Through a float ----

  /** What has no exact form behind tags: a float, or an integer that is not bare. */
  lemma NoExactForm(tags: seq<U64>, v: Cbor)
    requires Bare(v) && !v.Array? && !v.Blob? && (v.Integer? ==> |tags| > 0)
    ensures ExactParts(Tagged(tags, v)).None?
  {
    if |tags| > 0 {
      assert Tagged(tags, v) == Tag(tags[0], Tagged(tags[1..], v));
    }
  }

  /** The double a number is read through; an integer is converted, rounding. */
  function Through(pf: Platform, v: Cbor): Option<F64> {
    if v.Float? then Some(v.f) else if v.Integer? then Some(pf.ofInt(v.n)) else None
  }

  lemma FloatOf(pf: Platform, tags: seq<U64>, v: Cbor)
    requires Bare(v) && !v.Array?
    ensures AsF64(pf, Tagged(tags, v)) == Through(pf, v)
  {
    BehindTags(tags, v);
    if |tags| > 0 {
      assert Tagged(tags, v) == Tag(tags[0], Tagged(tags[1..], v));
    }
  }

  /** DOUBLE takes floats as they are and rounds integers; FLOAT narrows the same. */
  lemma FloatForms(pf: Platform, tags: seq<U64>, v: Cbor)
    requires Bare(v) && !v.Array?
    ensures var r, s := ReadCell(pf, Float64Type, Tagged(tags, v)), ReadCell(pf, Float32Type, Tagged(tags, v));
            match v
            case Float(f) => r == Ok(DoubleCell(f)) && s == Ok(SingleCell(pf.narrow(f)))
            case Integer(n) => r == Ok(DoubleCell(pf.ofInt(n))) && s == Ok(SingleCell(pf.narrow(pf.ofInt(n))))
            case _ => r.Refused? && s.Refused?
  {
    BehindTags(tags, v);
    FloatOf(pf, tags, v);
    hide AsF64;
  }

  /** A decimal fraction, tagged or bare, is a number too; any other array is not. */
  lemma FloatOfArray(pf: Platform, tags: seq<U64>, items: seq<Cbor>)
    ensures var v := Tagged(tags, Array(items));
            var r, s := ReadCell(pf, Float64Type, v), ReadCell(pf, Float32Type, v);
            if (tags == [] || tags == [4]) && Fraction(items).Some?
            then var (m, e) := Fraction(items).value;
                 r == Ok(DoubleCell(pf.ofDecimal(m, e))) && s == Ok(SingleCell(pf.narrow(pf.ofDecimal(m, e))))
            else r.Refused? && s.Refused?
  {
    hide FromValue;
    BehindTags(tags, Array(items));
    if |tags| > 0 {
      assert Tagged(tags, Array(items)) == Tag(tags[0], Tagged(tags[1..], Array(items)));
      if |tags| > 1 {
        assert Tagged(tags[1..], Array(items)).Tag?;
      } else {
        assert tags == [tags[0]];
      }
    }
  }

  /** Two integers: a 32-bit exponent, and a mantissa. */
  function Fraction(items: seq<Cbor>): Option<(I128, int)> {
    if |items| == 2 && FromValue(items[0]).Some? && FromValue(items[1]).Some? && InWidth(I32, FromValue(items[0]).value)
    then Some((FromValue(items[1]).value, FromValue(items[0]).value))
    else None
  }

  /** A DECIMAL read through a float: scaled, rounded and strictly within 128 bits. */
  lemma DecimalOfFloat(pf: Platform, scale: Scale, tags: seq<U64>, v: Cbor)
    requires Bare(v) && !v.Array? && !v.Blob? && (v.Integer? ==> |tags| > 0)
    ensures var r := ReadCell(pf, DecimalType(scale), Tagged(tags, v));
            match Through(pf, v)
            case None => r.Refused?
            case Some(f) =>
              match pf.scaled(f, scale)
              case None => r.Refused?
              case Some(n) =>
                r == if -170_141_183_460_469_231_731_687_303_715_884_105_728 < n
                        < 170_141_183_460_469_231_731_687_303_715_884_105_728 then Ok(NumCell(n)) else Refused
  {
    BehindTags(tags, v);
    FloatOf(pf, tags, v);
    NoExactForm(tags, v);
    hide AsF64, ExactParts;
  }

  /** The fractional digits of a second. */
  function SecondDigits(unit: TimeUnit): nat {
    match unit
    case Second => 0
    case Millisecond => 3
    case Microsecond => 6
    case Nanosecond => 9
  }

  /** The instant in units: scaled, rounded, and within 64 bits. */
  function InstantThrough(pf: Platform, unit: TimeUnit, v: Cbor): Option<int> {
    match Through(pf, v)
    case None => None
    case Some(f) =>
      match pf.scaled(f, SecondDigits(unit))
      case None => None
      case Some(n) => if InWidth(I64, n) then Some(n) else None
  }

  lemma InstantFloat(pf: Platform, unit: TimeUnit, tags: seq<U64>, v: Cbor)
    requires Bare(v) && !v.Array? && !v.Blob?
    requires v.Integer? ==> |tags| > 1 || (|tags| == 1 && tags[0] != 1)
    ensures var r := TimestampAt(pf, Tagged(tags, v), unit);
            match InstantThrough(pf, unit, v)
            case None => r.Refused?
            case Some(n) => r == Ok(n)
  {
    hide AsF64, ExactParts, Tagged, Through;
    var below := if |tags| > 0 && tags[0] == 1 then tags[1..] else tags;
    BelowInstant(tags, v);
    FloatOf(pf, below, v);
    NoExactForm(below, v);
  }

  lemma BelowInstant(tags: seq<U64>, v: Cbor)
    requires Bare(v)
    ensures InstantOf(Tagged(tags, v)) == Tagged(if |tags| > 0 && tags[0] == 1 then tags[1..] else tags, v)
  {
  }

  /** A TIMESTAMP read through a float, with or without a tag 1. */
  lemma TimestampOfFloat(pf: Platform, unit: TimeUnit, tags: seq<U64>, v: Cbor)
    requires Bare(v) && !v.Array? && !v.Blob?
    requires v.Integer? ==> |tags| > 1 || (|tags| == 1 && tags[0] != 1)
    ensures var r := ReadCell(pf, TimestampType(unit), Tagged(tags, v));
            match InstantThrough(pf, unit, v)
            case None => r.Refused?
            case Some(n) => r == Ok(NumCell(n))
  {
    BehindTags(tags, v);
    InstantFloat(pf, unit, tags, v);
    hide TimestampAt;
  }

  /** A DATE read from an inexact instant: the day that holds its rounded second. */
  lemma DateOfFloat(pf: Platform, tags: seq<U64>, v: Cbor)
    requires Bare(v) && !v.Array? && !v.Blob? && |tags| > 0 && tags[0] == 1 && (v.Integer? ==> |tags| > 1)
    ensures var r := ReadCell(pf, DateType, Tagged(tags, v));
            match InstantThrough(pf, Second, v)
            case None => r.Refused?
            case Some(secs) =>
              && (r.Ok? ==> r.value.NumCell?)
              && forall day: int :: r == Ok(NumCell(day))
                   <==> InWidth(I32, day) && day * 86_400 <= secs < (day + 1) * 86_400
  {
    BehindTags(tags, v);
    InstantFloat(pf, Second, tags, v);
    hide TimestampAt;
  }

  // ---- Text, bytes, booleans ----

  lemma BooleanForms(pf: Platform, tags: seq<U64>, v: Cbor)
    requires Bare(v)
    ensures ReadCell(pf, BooleanType, Tagged(tags, v)) == if v.Bool? then Ok(BoolCell(v.b)) else Refused
  {
    BehindTags(tags, v);
  }

  /** VARCHAR takes text as it is, and anything else as its JSON. */
  lemma TextForms(pf: Platform, tags: seq<U64>, v: Cbor)
    requires Bare(v)
    ensures ReadCell(pf, TextType, Tagged(tags, v)) == Ok(TextCell(if v.Text? then v.s else pf.jsonText(v)))
  {
    BehindTags(tags, v);
  }

  /** BLOB takes byte strings, and texts as their bytes; a fixed width must be met. */
  lemma BytesForms(pf: Platform, size: nat, tags: seq<U64>, v: Cbor)
    requires Bare(v)
    ensures var r, s := ReadCell(pf, BinaryType, Tagged(tags, v)), ReadCell(pf, FixedBinaryType(size), Tagged(tags, v));
            match v
            case Blob(b) => r == Ok(BytesCell(b)) && s == if |b| == size then Ok(BytesCell(b)) else Refused
            case Text(t) => r == Ok(BytesCell(t)) && s == if |t| == size then Ok(BytesCell(t)) else Refused
            case _ => r.Refused? && s.Refused?
  {
    BehindTags(tags, v);
  }

  // ---- Nested types ----

  /** Each item is read as the cell in its place. */
  ghost predicate ReadEach(pf: Platform, ty: Type, items: seq<Cbor>, cells: seq<Cell>) {
    |cells| == |items| && forall i | 0 <= i < |items| :: ReadCell(pf, ty, items[i]) == Ok(cells[i])
  }

  /** LIST takes arrays, item by item; a fixed LIST only those of its length. */
  lemma ListForms(pf: Platform, child: Type, size: nat, tags: seq<U64>, v: Cbor, cells: seq<Cell>)
    requires Bare(v)
    ensures var list := ReadCell(pf, ListType(child), Tagged(tags, v));
            && (list.Ok? ==> list.value.ListCell?)
            && (list == Ok(ListCell(cells)) <==> v.Array? && ReadEach(pf, child, v.items, cells))
    ensures var fixed := ReadCell(pf, FixedListType(child, size), Tagged(tags, v));
            && (fixed.Ok? ==> fixed.value.ListCell?)
            && (fixed == Ok(ListCell(cells)) <==> v.Array? && |v.items| == size && ReadEach(pf, child, v.items, cells))
  {
    BehindTags(tags, v);
    if v.Array? && ReadEach(pf, child, v.items, cells) {
      assert ReadAll(pf, child, v.items).value == cells;
    }
    hide ReadAll;
  }

  /** The key is the text, behind any tags. */
  ghost predicate Named(key: Cbor, name: Utf8) {
    exists tags :: key == Tagged(tags, Text(name))
  }

  lemma NamedContent(key: Cbor, name: Utf8)
    ensures Named(key, name) <==> Content(key) == Text(name)
  {
    var tags := TagStack(key);
    if exists stack :: key == Tagged(stack, Text(name)) {
      var stack :| key == Tagged(stack, Text(name));
      ContentOfTagged(stack, Text(name));
    }
  }

  /** Where a name is first found. */
  ghost predicate FirstNamed(entries: seq<Entry>, name: Utf8, i: nat) {
    i < |entries| && Named(entries[i].key, name) && forall k | 0 <= k < i :: !Named(entries[k].key, name)
  }

  /** The value a field is read from: the one under the first key of its name, and null when there is none. */
  ghost predicate FieldValue(entries: seq<Entry>, name: Utf8, v: Cbor) {
    || (exists i: nat :: FirstNamed(entries, name, i) && v == entries[i].val)
    || (v == Null && forall k | 0 <= k < |entries| :: !Named(entries[k].key, name))
  }

  lemma {:induction false} LookupValue(entries: seq<Entry>, name: Utf8)
    ensures FieldValue(entries, name, Lookup(entries, name))
  {
    hide Named;
    if |entries| > 0 {
      NamedContent(entries[0].key, name);
      if Named(entries[0].key, name) {
        assert FirstNamed(entries, name, 0);
      } else {
        var rest := entries[1..];
        LookupValue(rest, name);
        if i: nat :| FirstNamed(rest, name, i) && Lookup(rest, name) == rest[i].val {
          assert forall k | 0 < k <= i :: entries[k] == rest[k - 1];
          assert FirstNamed(entries, name, i + 1);
        } else {
          assert forall k | 0 < k < |entries| :: entries[k] == rest[k - 1];
        }
      }
    }
  }

  /** STRUCT takes maps: each field is read from the value under its name, and is NULL when the name is absent. */
  lemma StructForms(pf: Platform, fields: seq<Field>, tags: seq<U64>, v: Cbor) returns (vs: seq<Cbor>)
    requires Bare(v)
    ensures v.Map? ==> |vs| == |fields| && forall j | 0 <= j < |fields| :: FieldValue(v.entries, fields[j].name, vs[j])
    ensures var r := ReadCell(pf, StructType(fields), Tagged(tags, v));
            && (r.Ok? <==> v.Map? && forall j | 0 <= j < |fields| :: ReadCell(pf, fields[j].ty, vs[j]).Ok?)
            && (r.Ok? ==> r.value.StructCell? && |r.value.parts| == |fields|
                          && forall j | 0 <= j < |fields| :: ReadCell(pf, fields[j].ty, vs[j]) == Ok(r.value.parts[j]))
  {
    BehindTags(tags, v);
    vs := [];
    if v.Map? {
      vs := seq(|fields|, j requires 0 <= j < |fields| => Lookup(v.entries, fields[j].name));
      forall j | 0 <= j < |fields|
        ensures FieldValue(v.entries, fields[j].name, vs[j])
      {
        LookupValue(v.entries, fields[j].name);
      }
    }
    hide ReadFields, FieldValue;
  }

  /** An absent field is NULL. */
  lemma AbsentField(pf: Platform, fields: seq<Field>, tags: seq<U64>, entries: seq<Entry>, j: nat)
    requires j < |fields| && forall k | 0 <= k < |entries| :: !Named(entries[k].key, fields[j].name)
    ensures var r := ReadCell(pf, StructType(fields), Tagged(tags, Map(entries)));
            r.Ok? ==> r.value.StructCell? && |r.value.parts| == |fields| && r.value.parts[j] == NullCell
  {
    var vs := StructForms(pf, fields, tags, Map(entries));
    assert FieldValue(entries, fields[j].name, vs[j]);
    assert vs[j] == Null;
    NullForms(pf, fields[j].ty, [], Null);
    hide ReadCell;
  }

  /** Each entry is read as the pair in its place, with a key. */
  ghost predicate ReadPairs(pf: Platform, key: Type, val: Type, entries: seq<Entry>, pairs: seq<Pair>) {
    |pairs| == |entries| && forall i | 0 <= i < |entries| ::
      && ReadCell(pf, key, entries[i].key) == Ok(pairs[i].key) && pairs[i].key != NullCell
      && ReadCell(pf, val, entries[i].val) == Ok(pairs[i].val)
  }

  /** MAP takes maps, entry by entry; a key must not be null. */
  lemma MapForms(pf: Platform, key: Type, val: Type, tags: seq<U64>, v: Cbor, pairs: seq<Pair>)
    requires Bare(v)
    ensures var r := ReadCell(pf, MapType(key, val), Tagged(tags, v));
            && (r.Ok? ==> r.value.MapCell?)
            && (r == Ok(MapCell(pairs)) <==> v.Map? && ReadPairs(pf, key, val, v.entries, pairs))
  {
    BehindTags(tags, v);
    if v.Map? {
      EntriesAsPairs(pf, key, val, v.entries, pairs);
    }
    hide ReadAll, ReadPairs;
  }

  lemma EntriesAsPairs(pf: Platform, key: Type, val: Type, entries: seq<Entry>, pairs: seq<Pair>)
    ensures var keys, vals := ReadAll(pf, key, KeysOf(entries)), ReadAll(pf, val, ValsOf(entries));
            ReadPairs(pf, key, val, entries, pairs)
            <==> keys.Ok? && vals.Ok? && NullCell !in keys.value && Zip(keys.value, vals.value) == pairs
  {
    hide ReadCell;
    var keys, vals := ReadAll(pf, key, KeysOf(entries)), ReadAll(pf, val, ValsOf(entries));
    if ReadPairs(pf, key, val, entries, pairs) {
      assert keys.Ok? && vals.Ok?;
      assert forall i | 0 <= i < |entries| :: keys.value[i] == pairs[i].key && vals.value[i] == pairs[i].val;
      assert Zip(keys.value, vals.value) == pairs;
    }
  }
}
