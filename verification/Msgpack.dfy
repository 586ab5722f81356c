/** CBOR values to MessagePack values and back. */
module Msgpack {
  import opened Base
  import opened Values
  import opened Bignum
  import opened Exact
  import opened Instant

  const TIMESTAMP_EXT: I8 := -1
  const NANOS_PER_SEC: int := 1_000_000_000

  /** `instant_parts`: a tag-1 payload as seconds and nanoseconds. */
  function InstantParts(pf: Platform, inner: Cbor): Option<(I64, Nanos)> {
    match DecimalParts(inner)
    case Some(parts) =>
      (match TotalNanos(parts.0, parts.1)
       case None => None
       case Some(total) => SplitNanos(total))
    case None =>
      match inner
      case Integer(n) => if IsI64(n) then Some((n, 0)) else None
      case Float(f) => pf.instant(f)
      case _ => None
  }

  /** `mantissa * 10^exponent` seconds in whole nanoseconds; digits below a nanosecond are cut. */
  function TotalNanos(mantissa: I128, exponent: int): Option<I128> {
    var shift := exponent + 9;
    if shift >= 0 then
      match CheckedPow10(shift)
      case None => None
      case Some(factor) => if IsI128(mantissa * factor) then Some(mantissa * factor) else None
    else
      match CheckedPow10(-shift)
      case None => None
      case Some(factor) => QuotientFits(mantissa, factor); Some(TruncDiv(mantissa, factor))
  }

  function SplitNanos(total: I128): Option<(I64, Nanos)> {
    var secs := total / NANOS_PER_SEC;
    if IsI64(secs) then Some((secs, total % NANOS_PER_SEC)) else None
  }

  /** The tag-1 content that `mp_to_cbor` gives an instant. */
  function InstantContent(secs: I64, nanos: int): Cbor
    requires 0 <= nanos < TWO_32
  {
    if nanos == 0 then Integer(secs)
    else Tag(4, Array([Integer(-9), ToValue(secs * NANOS_PER_SEC + nanos)]))
  }

  /** `cbor_to_mp`: tags are dropped, except that an instant and a bignum keep their identity as an `ext`. */
  function CborToMp(pf: Platform, v: Cbor): Mp {
    match v
    case Null => Nil
    case Bool(b) => Boolean(b)
    case Integer(n) => if n >= -TWO_63 then MpInteger(n) else MpF64(pf.ofInt(n))
    case Float(f) => MpF64(f)
    case Text(s) => MpString(s)
    case Blob(b) => MpBinary(b)
    case Array(items) => MpArray(AllToMp(pf, items))
    case Map(entries) => MpMap(EntriesToMp(pf, entries))
    case Tag(tag, inner) =>
      if tag == 1 && InstantParts(pf, inner).Some? then
        var parts := InstantParts(pf, inner).value;
        MpExt(TIMESTAMP_EXT, EncodeTimestamp(parts.0, parts.1))
      else if (tag == BIGNUM_POS || tag == BIGNUM_NEG) && inner.Blob? then MpExt(tag, inner.bytes)
      else CborToMp(pf, inner)
  }

  function AllToMp(pf: Platform, items: seq<Cbor>): (r: seq<Mp>)
    ensures |r| == |items|
    ensures forall i | 0 <= i < |items| :: r[i] == CborToMp(pf, items[i])
  {
    if |items| == 0 then [] else [CborToMp(pf, items[0])] + AllToMp(pf, items[1..])
  }

  function EntriesToMp(pf: Platform, entries: seq<Entry>): (r: seq<MpEntry>)
    ensures |r| == |entries|
  {
    if |entries| == 0 then [] else
      assert entries[0].key < entries[0] && entries[0].val < entries[0];
      [MpEntry(CborToMp(pf, entries[0].key), CborToMp(pf, entries[0].val))] + EntriesToMp(pf, entries[1..])
  }

  /** `mp_to_cbor`: an `ext` without a CBOR counterpart becomes a map of its code and data. */
  function MpToCbor(pf: Platform, v: Mp): Cbor {
    match v
    case Nil => Null
    case Boolean(b) => Bool(b)
    case MpInteger(n) => Integer(n)
    case MpF32(single) => Float(pf.widen(single))
    case MpF64(f) => Float(f)
    case MpString(raw) => if ValidUtf8(raw) then Text(raw) else Blob(raw)
    case MpBinary(b) => Blob(b)
    case MpArray(items) => Array(AllToCbor(pf, items))
    case MpMap(entries) => Map(EntriesToCbor(pf, entries))
    case MpExt(code, data) =>
      if code == TIMESTAMP_EXT && DecodeTimestamp(data).Some? then
        var parts := DecodeTimestamp(data).value;
        Tag(1, InstantContent(parts.0, parts.1))
      else if code == BIGNUM_POS || code == BIGNUM_NEG then Tag(code, Blob(data))
      else ForeignMap(code, data)
  }

  function ForeignMap(code: I8, data: Bytes): Cbor {
    Map([Entry(Text(Ascii("ext_type")), Integer(code)), Entry(Text(Ascii("data")), Blob(data))])
  }

  function AllToCbor(pf: Platform, items: seq<Mp>): (r: seq<Cbor>)
    ensures |r| == |items|
  {
    if |items| == 0 then [] else [MpToCbor(pf, items[0])] + AllToCbor(pf, items[1..])
  }

  function EntriesToCbor(pf: Platform, entries: seq<MpEntry>): (r: seq<Entry>)
    ensures |r| == |entries|
  {
    if |entries| == 0 then [] else
      assert entries[0].key < entries[0] && entries[0].val < entries[0];
      [Entry(MpToCbor(pf, entries[0].key), MpToCbor(pf, entries[0].val))] + EntriesToCbor(pf, entries[1..])
  }

  /** A value carried out to MessagePack and back. */
  function Carried(pf: Platform, v: Cbor): Cbor {
    MpToCbor(pf, CborToMp(pf, v))
  }

  // ---- Instants ----

  /** The content written for an instant is read back as that instant. */
  lemma InstantContentParts(pf: Platform, secs: I64, nanos: Nanos)
    ensures InstantParts(pf, InstantContent(secs, nanos)) == Some((secs, nanos))
  {
    hide InstantParts, ToValue;
    if nanos == 0 {
      WholeSecondParts(pf, secs);
    } else {
      ContentSplits(pf, secs * NANOS_PER_SEC + nanos);
      SplitTotal(secs, nanos);
    }
  }

  lemma WholeSecondParts(pf: Platform, secs: I64)
    ensures InstantParts(pf, Integer(secs)) == Some((secs, 0))
  {
  }

  lemma SplitTotal(secs: int, nanos: Nanos)
    ensures var total := secs * NANOS_PER_SEC + nanos; total / NANOS_PER_SEC == secs && total % NANOS_PER_SEC == nanos
  {
  }

  lemma ContentSplits(pf: Platform, total: I128)
    ensures InstantParts(pf, Tag(4, Array([Integer(-9), ToValue(total)]))) == SplitNanos(total)
  {
    hide ToValue, FromValue;
    BignumRoundTrip(total);
    BignumDecode(Integer(-9));
    CheckedPow10Range(0);
    assert TotalNanos(total, -9) == Some(total);
  }

  /** An instant in any accepted form arrives as tag 1 with the same seconds and nanoseconds. */
  lemma CarriedInstant(pf: Platform, inner: Cbor)
    requires InstantParts(pf, inner).Some?
    ensures var parts := InstantParts(pf, inner).value;
            Carried(pf, Tag(1, inner)) == Tag(1, InstantContent(parts.0, parts.1))
  {
    var parts := InstantParts(pf, inner).value;
    TimestampRoundTrip(parts.0, parts.1);
  }

  // ---- What comes back unchanged ----

  /** No tag but on a bignum or on an instant in the written form, and no integer below the 64-bit range. */
  predicate Plain(pf: Platform, v: Cbor) {
    match v
    case Integer(n) => n >= -9_223_372_036_854_775_808
    case Array(items) => forall x | x in items :: Plain(pf, x)
    case Map(entries) => forall e | e in entries :: PlainEntry(pf, e)
    case Tag(tag, inner) =>
      || ((tag == 2 || tag == 3) && inner.Blob?)
      || (tag == 1 && InstantParts(pf, inner).Some?
          && var parts := InstantParts(pf, inner).value; inner == InstantContent(parts.0, parts.1))
    case _ => true
  }

  predicate PlainEntry(pf: Platform, e: Entry) {
    Plain(pf, e.key) && Plain(pf, e.val)
  }

  /** A value comes back unchanged exactly when it is plain. */
  lemma {:induction false} CarriedIff(pf: Platform, v: Cbor)
    ensures Carried(pf, v) == v <==> Plain(pf, v)
    decreases v, 1
  {
    hide InstantParts, InstantContent, EncodeTimestamp, DecodeTimestamp;
    match v
    case Array(items) => ItemsCarriedIff(pf, items);
    case Map(entries) => EntriesCarriedIff(pf, entries);
    case Tag(tag, inner) => TagCarriedIff(pf, tag, inner);
    case _ =>
  }

  /** What arrives under a tag: an instant in the written form, or a bignum. */
  lemma {:induction false} ArrivedTag(pf: Platform, v: Cbor)
    ensures var w := Carried(pf, v);
            w.Tag? ==> ((w.tag == 2 || w.tag == 3) && w.inner.Blob?)
                       || (w.tag == 1 && exists secs: I64, nanos: Nanos :: w.inner == InstantContent(secs, nanos))
    decreases v
  {
    hide InstantParts, InstantContent, EncodeTimestamp, DecodeTimestamp;
    if v.Tag? {
      if v.tag == 1 && InstantParts(pf, v.inner).Some? {
        CarriedInstant(pf, v.inner);
      } else {
        ArrivedTag(pf, v.inner);
      }
    }
  }

  lemma {:induction false} TagCarriedIff(pf: Platform, tag: U64, inner: Cbor)
    ensures Carried(pf, Tag(tag, inner)) == Tag(tag, inner) <==> Plain(pf, Tag(tag, inner))
  {
    hide InstantParts, InstantContent, EncodeTimestamp, DecodeTimestamp;
    if tag == 1 && InstantParts(pf, inner).Some? {
      CarriedInstant(pf, inner);
    } else if !((tag == 2 || tag == 3) && inner.Blob?) {
      ArrivedTag(pf, inner);
      if Carried(pf, Tag(tag, inner)) == Tag(tag, inner) && tag == 1 {
        var secs: I64, nanos: Nanos :| inner == InstantContent(secs, nanos);
        InstantContentParts(pf, secs, nanos);
      }
    }
  }

  lemma {:induction false} ItemsCarriedIff(pf: Platform, items: seq<Cbor>)
    ensures AllToCbor(pf, AllToMp(pf, items)) == items <==> forall x | x in items :: Plain(pf, x)
    decreases items, 0
  {
    hide Plain, CborToMp, MpToCbor;
    if |items| > 0 {
      var rest := items[1..];
      CarriedIff(pf, items[0]);
      ItemsCarriedIff(pf, rest);
      assert AllToMp(pf, items)[1..] == AllToMp(pf, rest);
      assert AllToCbor(pf, AllToMp(pf, items)) == [Carried(pf, items[0])] + AllToCbor(pf, AllToMp(pf, rest));
      SameFirst(Carried(pf, items[0]), AllToCbor(pf, AllToMp(pf, rest)), items);
      assert items[0] in items && forall x | x in rest :: x in items;
      assert forall x | x in items :: x == items[0] || x in rest;
    }
  }

  lemma {:induction false} EntriesCarriedIff(pf: Platform, entries: seq<Entry>)
    ensures EntriesToCbor(pf, EntriesToMp(pf, entries)) == entries <==> forall e | e in entries :: PlainEntry(pf, e)
    decreases entries, 0
  {
    hide Plain, CborToMp, MpToCbor;
    if |entries| > 0 {
      var e, rest := entries[0], entries[1..];
      assert e.key < e && e.val < e;
      CarriedIff(pf, e.key);
      CarriedIff(pf, e.val);
      EntriesCarriedIff(pf, rest);
      assert EntriesToMp(pf, entries)[1..] == EntriesToMp(pf, rest);
      var first := Entry(Carried(pf, e.key), Carried(pf, e.val));
      assert EntriesToCbor(pf, EntriesToMp(pf, entries)) == [first] + EntriesToCbor(pf, EntriesToMp(pf, rest));
      SameFirst(first, EntriesToCbor(pf, EntriesToMp(pf, rest)), entries);
      assert e in entries && forall x | x in rest :: x in entries;
      assert forall x | x in entries :: x == e || x in rest;
    }
  }

  // ---- One pass reaches a fixed point ----

  /** Transcoding what one pass produced changes nothing more: for every CBOR value, whatever tags, instants and
      bignums it nests. */
  lemma {:induction false} TranscodeStable(pf: Platform, v: Cbor)
    ensures CborToMp(pf, Carried(pf, v)) == CborToMp(pf, v)
    decreases v
  {
    match v
    case Array(items) => TranscodeStableAll(pf, items);
    case Map(entries) => TranscodeStableEntries(pf, entries);
    case Tag(tag, inner) =>
      if tag == 1 && InstantParts(pf, inner).Some? {
        var parts := InstantParts(pf, inner).value;
        CarriedInstant(pf, inner);
        InstantContentParts(pf, parts.0, parts.1);
      } else if !((tag == BIGNUM_POS || tag == BIGNUM_NEG) && inner.Blob?) {
        TranscodeStable(pf, inner);
      }
    case _ =>
  }

  lemma {:induction false} TranscodeStableAll(pf: Platform, items: seq<Cbor>)
    ensures AllToMp(pf, AllToCbor(pf, AllToMp(pf, items))) == AllToMp(pf, items)
    decreases items
  {
    if |items| > 0 {
      TranscodeStable(pf, items[0]);
      TranscodeStableAll(pf, items[1..]);
    }
  }

  lemma {:induction false} TranscodeStableEntries(pf: Platform, entries: seq<Entry>)
    ensures EntriesToMp(pf, EntriesToCbor(pf, EntriesToMp(pf, entries))) == EntriesToMp(pf, entries)
    decreases entries
  {
    if |entries| > 0 {
      assert entries[0].key < entries[0] && entries[0].val < entries[0];
      TranscodeStable(pf, entries[0].key);
      TranscodeStable(pf, entries[0].val);
      TranscodeStableEntries(pf, entries[1..]);
    }
  }

  // ---- From the MessagePack side ----

  /** What MessagePack decodes to: the literal correspondence of all forms but `ext`. */
  lemma MpForms(pf: Platform, v: Mp)
    ensures match v
            case Nil => MpToCbor(pf, v) == Null
            case Boolean(b) => MpToCbor(pf, v) == Bool(b)
            case MpInteger(n) => MpToCbor(pf, v) == Integer(n)
            case MpF32(single) => MpToCbor(pf, v) == Float(pf.widen(single))
            case MpF64(f) => MpToCbor(pf, v) == Float(f)
            case MpString(raw) => MpToCbor(pf, v) == if ValidUtf8(raw) then Text(raw) else Blob(raw)
            case MpBinary(b) => MpToCbor(pf, v) == Blob(b)
            case MpArray(items) =>
              var w := MpToCbor(pf, v);
              w.Array? && |w.items| == |items| && forall i | 0 <= i < |items| :: w.items[i] == MpToCbor(pf, items[i])
            case MpMap(entries) =>
              var w := MpToCbor(pf, v);
              w.Map? && |w.entries| == |entries| && forall i | 0 <= i < |entries| ::
                w.entries[i] == Entry(MpToCbor(pf, entries[i].key), MpToCbor(pf, entries[i].val))
            case MpExt(_, _) => true
  {
    match v
    case MpArray(items) => ItemsByIndex(pf, items);
    case MpMap(entries) => EntriesByIndex(pf, entries);
    case _ =>
  }

  lemma {:induction false} ItemsByIndex(pf: Platform, items: seq<Mp>)
    ensures forall i | 0 <= i < |items| :: AllToCbor(pf, items)[i] == MpToCbor(pf, items[i])
  {
    hide MpToCbor;
    if |items| > 0 {
      ItemsByIndex(pf, items[1..]);
    }
  }

  lemma {:induction false} EntriesByIndex(pf: Platform, entries: seq<MpEntry>)
    ensures forall i | 0 <= i < |entries| ::
              EntriesToCbor(pf, entries)[i] == Entry(MpToCbor(pf, entries[i].key), MpToCbor(pf, entries[i].val))
  {
    hide MpToCbor;
    if |entries| > 0 {
      EntriesByIndex(pf, entries[1..]);
    }
  }

  /** The form of a MessagePack value after a trip through CBOR, on MessagePack values alone: singles are widened, a
      string that is not UTF-8 is a binary, a timestamp (code -1) takes its shortest layout with less than a second of
      nanoseconds, a bignum (codes 2 and 3) stays, and any other `ext` is a map of its code and its data. */
  function Normal(pf: Platform, m: Mp): Mp {
    match m
    case MpF32(single) => MpF64(pf.widen(single))
    case MpString(raw) => if ValidUtf8(raw) then m else MpBinary(raw)
    case MpArray(items) => MpArray(NormalAll(pf, items))
    case MpMap(entries) => MpMap(NormalEntries(pf, entries))
    case MpExt(code, data) =>
      if code == -1 && DecodeTimestamp(data).Some? then
        var (secs, nanos) := DecodeTimestamp(data).value;
        NormalInstant(secs * 1_000_000_000 + nanos)
      else if code == 2 || code == 3 then m
      else NormalForeign(code, data)
    case _ => m
  }

  /** The code under "ext_type", and the data under "data". */
  function NormalForeign(code: I8, data: Bytes): Mp {
    MpMap([MpEntry(MpString([101, 120, 116, 95, 116, 121, 112, 101]), MpInteger(code)),
           MpEntry(MpString([100, 97, 116, 97]), MpBinary(data))])
  }

  /** Nanoseconds since the epoch as a timestamp, or as a bare decimal fraction when their seconds exceed 64 bits. */
  function NormalInstant(total: int): Mp
    requires -9_223_372_036_854_775_808_000_000_000 <= total < 9_223_372_036_854_775_813_000_000_000
  {
    var secs := total / 1_000_000_000;
    if IsI64(secs) then MpExt(-1, EncodeTimestamp(secs, total % 1_000_000_000))
    else MpArray([MpInteger(-9), MpExt(2, TrimBE(total))])
  }

  function NormalAll(pf: Platform, items: seq<Mp>): (r: seq<Mp>)
    ensures |r| == |items|
    ensures forall i | 0 <= i < |items| :: r[i] == Normal(pf, items[i])
  {
    if |items| == 0 then [] else [Normal(pf, items[0])] + NormalAll(pf, items[1..])
  }

  function NormalEntries(pf: Platform, entries: seq<MpEntry>): (r: seq<MpEntry>)
    ensures |r| == |entries|
  {
    if |entries| == 0 then [] else
      assert entries[0].key < entries[0] && entries[0].val < entries[0];
      [MpEntry(Normal(pf, entries[0].key), Normal(pf, entries[0].val))] + NormalEntries(pf, entries[1..])
  }

  /** Every MessagePack value, carried through CBOR and back, is in its normal form. */
  lemma {:induction false} NormalForm(pf: Platform, m: Mp)
    ensures CborToMp(pf, MpToCbor(pf, m)) == Normal(pf, m)
    decreases m, 1
  {
    match m
    case MpArray(items) => NormalFormAll(pf, items);
    case MpMap(entries) => NormalFormEntries(pf, entries);
    case MpExt(code, data) => NormalExt(pf, code, data);
    case _ =>
  }

  lemma {:induction false} NormalFormAll(pf: Platform, items: seq<Mp>)
    ensures AllToMp(pf, AllToCbor(pf, items)) == NormalAll(pf, items)
    decreases items, 0
  {
    hide CborToMp, MpToCbor, Normal;
    if |items| > 0 {
      NormalForm(pf, items[0]);
      NormalFormAll(pf, items[1..]);
      assert AllToCbor(pf, items)[1..] == AllToCbor(pf, items[1..]);
    }
  }

  lemma {:induction false} NormalFormEntries(pf: Platform, entries: seq<MpEntry>)
    ensures EntriesToMp(pf, EntriesToCbor(pf, entries)) == NormalEntries(pf, entries)
    decreases entries, 0
  {
    hide CborToMp, MpToCbor, Normal;
    if |entries| > 0 {
      assert entries[0].key < entries[0] && entries[0].val < entries[0];
      NormalForm(pf, entries[0].key);
      NormalForm(pf, entries[0].val);
      NormalFormEntries(pf, entries[1..]);
      assert EntriesToCbor(pf, entries)[1..] == EntriesToCbor(pf, entries[1..]);
    }
  }

  lemma NormalExt(pf: Platform, code: I8, data: Bytes)
    ensures CborToMp(pf, MpToCbor(pf, MpExt(code, data))) == Normal(pf, MpExt(code, data))
  {
    hide CborToMp, MpToCbor, Normal, DecodeTimestamp, InstantContent, NormalInstant, ForeignMap, NormalForeign;
    ExtToCbor(pf, code, data);
    if code == -1 && DecodeTimestamp(data).Some? {
      var (secs, nanos) := DecodeTimestamp(data).value;
      InstantNormal(pf, secs, nanos);
    } else if code == 2 || code == 3 {
      BignumExt(pf, code, data);
    } else {
      ForeignExt(pf, code, data);
    }
  }

  /** What an `ext` decodes to, and what it becomes. */
  lemma ExtToCbor(pf: Platform, code: I8, data: Bytes)
    ensures var v, m := MpToCbor(pf, MpExt(code, data)), Normal(pf, MpExt(code, data));
            if code == -1 && DecodeTimestamp(data).Some? then
              var (secs, nanos) := DecodeTimestamp(data).value;
              v == Tag(1, InstantContent(secs, nanos)) && m == NormalInstant(secs * 1_000_000_000 + nanos)
            else if code == 2 || code == 3 then v == Tag(code, Blob(data)) && m == MpExt(code, data)
            else v == ForeignMap(code, data) && m == NormalForeign(code, data)
  {
    hide DecodeTimestamp, InstantContent, NormalInstant, ForeignMap, NormalForeign;
  }

  lemma BignumExt(pf: Platform, code: I8, data: Bytes)
    requires code == 2 || code == 3
    ensures CborToMp(pf, Tag(code, Blob(data))) == MpExt(code, data)
  {
  }

  lemma InstantNormal(pf: Platform, secs: I64, nanos: int)
    requires 0 <= nanos < TWO_32
    ensures CborToMp(pf, Tag(1, InstantContent(secs, nanos))) == NormalInstant(secs * 1_000_000_000 + nanos)
  {
    hide InstantParts, CborToMp, ToValue, TrimBE;
    var total, content := secs * 1_000_000_000 + nanos, InstantContent(secs, nanos);
    TaggedInstant(pf, content);
    if nanos == 0 {
      WholeSecondParts(pf, secs);
      SplitTotal(secs, 0);
    } else {
      ContentSplits(pf, total);
      BareFraction(pf, total);
    }
  }

  lemma TaggedInstant(pf: Platform, inner: Cbor)
    ensures var parts := InstantParts(pf, inner);
            CborToMp(pf, Tag(1, inner)) == if parts.Some? then MpExt(-1, EncodeTimestamp(parts.value.0, parts.value.1))
                                           else CborToMp(pf, inner)
  {
    hide InstantParts, EncodeTimestamp;
  }

  lemma BareFraction(pf: Platform, total: I128)
    ensures total >= TWO_64 ==> CborToMp(pf, Tag(4, Array([Integer(-9), ToValue(total)])))
                                == MpArray([MpInteger(-9), MpExt(2, TrimBE(total))])
  {
    hide TrimBE;
    if total >= TWO_64 {
      var items := [Integer(-9), ToValue(total)];
      assert CborToMp(pf, Tag(4, Array(items))) == CborToMp(pf, Array(items));
      var mps := AllToMp(pf, items);
      assert mps == [CborToMp(pf, items[0]), CborToMp(pf, items[1])];
    }
  }

  lemma ForeignExt(pf: Platform, code: I8, data: Bytes)
    ensures CborToMp(pf, ForeignMap(code, data)) == NormalForeign(code, data)
  {
    hide Ascii, EntriesToMp;
    TypeName();
    DataName();
    var x, y := Entry(Text(Ascii("ext_type")), Integer(code)), Entry(Text(Ascii("data")), Blob(data));
    TwoToMp(pf, x, y);
  }

  lemma TypeName()
    ensures Ascii("ext_type") == [101, 120, 116, 95, 116, 121, 112, 101]
  {
    hide Ascii;
    AsciiAt("ext_type");
    var name := Ascii("ext_type");
    assert |name| == 8;
    assert name[0] == 101 && name[1] == 120 && name[2] == 116 && name[3] == 95;
    assert name[4] == 116 && name[5] == 121 && name[6] == 112 && name[7] == 101;
  }

  lemma DataName()
    ensures Ascii("data") == [100, 97, 116, 97]
  {
    hide Ascii;
    AsciiAt("data");
    var name := Ascii("data");
    assert |name| == 4;
    assert name[0] == 100 && name[1] == 97 && name[2] == 116 && name[3] == 97;
  }

  lemma TwoToMp(pf: Platform, x: Entry, y: Entry)
    ensures EntriesToMp(pf, [x, y]) == [MpEntry(CborToMp(pf, x.key), CborToMp(pf, x.val)),
                                        MpEntry(CborToMp(pf, y.key), CborToMp(pf, y.val))]
  {
    hide CborToMp;
    assert [x, y][1..] == [y] && [y][1..] == [];
    assert EntriesToMp(pf, []) == [];
    assert EntriesToMp(pf, [y]) == [MpEntry(CborToMp(pf, y.key), CborToMp(pf, y.val))];
  }
}
