/** The byte form of one CBOR item (section 3 of RFC 8949): definite lengths, shortest heads on output, a nesting
    limit on input. Stands for the CBOR library the program calls. */
module ItemCodec {
  import opened Base
  import opened Values
  import opened Framing

  /** The nesting depth the decoders accept. */
  const MAX_NESTING: nat := 64

  // ---- Encoding ----

  /** Initial byte and argument, in the shortest of the five forms. */
  function Head(major: nat, n: nat): (r: Bytes)
    requires major < 8
    ensures 1 <= |r| <= 9
  {
    if n < 24 then [32 * major + n] else WideHead(major, InfoFor(n), n)
  }

  /** An initial byte announcing the argument behind it. */
  function WideHead(major: nat, info: nat, n: nat): Bytes
    requires major < 8 && info < 32
  {
    [32 * major + info] + BE(n, Width(info))
  }

  /** The additional information of the shortest head for `n`. */
  function InfoFor(n: nat): (info: nat)
    ensures n < 24 ==> info == n
    ensures n >= 24 ==> 24 <= info <= 27
  {
    if n < 24 then n else if n < 0x100 then 24 else if n < 0x1_0000 then 25 else if n < TWO_32 then 26 else 27
  }

  /** The argument width that additional information 24 to 27 announces. */
  function Width(info: nat): (w: nat)
    ensures w <= 8
  {
    if info == 24 then 1 else if info == 25 then 2 else if info == 26 then 4 else 8
  }

  function Encode(v: Cbor): (r: Bytes)
    ensures |r| > 0
  {
    match v
    case Null => [0xF6]
    case Bool(b) => [if b then 0xF5 else 0xF4]
    case Integer(n) => if n >= 0 then Head(0, n) else Head(1, -1 - n)
    case Float(f) => WideHead(7, 27, f)
    case Blob(b) => Head(2, |b|) + b
    case Text(s) => Head(3, |s|) + s
    case Array(items) => Head(4, |items|) + EncodeAll(items)
    case Map(entries) => Head(5, |entries|) + EncodeEntries(entries)
    case Tag(tag, inner) => Head(6, tag) + Encode(inner)
  }

  function EncodeAll(items: seq<Cbor>): Bytes {
    if |items| == 0 then [] else Encode(items[0]) + EncodeAll(items[1..])
  }

  function EncodeEntries(entries: seq<Entry>): Bytes {
    if |entries| == 0 then [] else
      assert entries[0].key < entries[0] && entries[0].val < entries[0];
      Encode(entries[0].key) + Encode(entries[0].val) + EncodeEntries(entries[1..])
  }

  // ---- Decoding ----

  type Major = n: int | 0 <= n < 8

  /** Major type, additional information and argument of an initial byte. */
  datatype HeadInfo = HeadInfo(major: Major, info: nat, arg: U64)

  /** The byte that starts an item. */
  function InitialByte(): Parser<byte> {
    (bs: Bytes) => if |bs| == 0 then Failed(Truncated) else Got(bs[0], bs[1..])
  }

  /** A `w`-byte argument. */
  function Argument(w: nat): Parser<U64>
    requires w <= 8
  {
    (bs: Bytes) => ReadArgument(w, bs)
  }

  function ReadArgument(w: nat, bs: Bytes): Parsed<U64>
    requires w <= 8
  {
    if |bs| < w then Failed(Truncated) else
      ArgumentBound(bs[..w]);
      Got(FromBE(bs[..w]), bs[w..])
  }

  lemma ArgumentBound(b: Bytes)
    requires |b| <= 8
    ensures FromBE(b) < TWO_64
  {
    Pow256Values();
    Pow256Monotone(|b|, 8);
  }

  function HeadParser(): Parser<HeadInfo> {
    Bind(InitialByte(), (b: byte) => HeadFrom(b))
  }

  /** Additional information 28 to 31 is reserved or an indefinite length, which this codec does not accept. */
  function HeadFrom(b: byte): Parser<HeadInfo> {
    var major: Major, info := b / 32, b % 32;
    if info < 24 then Return(HeadInfo(major, info, info))
    else if info > 27 then Fail(InvalidMajor)
    else
      Bind(Argument(Width(info)), (n: U64) => Return(HeadInfo(major, info, n)))
  }

  /** One item, nested at most `limit` levels deep. */
  function Decoder(limit: nat): Parser<Cbor>
    decreases limit, 1
  {
    Bind(HeadParser(), (h: HeadInfo) => Body(h, limit))
  }

  /** What follows the head `h`. */
  function Body(h: HeadInfo, limit: nat): Parser<Cbor>
    decreases limit, 0
  {
    if h.major == 0 then Return(Integer(h.arg))
    else if h.major == 1 then Return(Integer(-1 - h.arg))
    else if h.major == 2 then Bind(Take(h.arg), (b: Bytes) => Return(Blob(b)))
    else if h.major == 3 then Bind(Take(h.arg), (b: Bytes) => TextOf(b))
    else if h.major == 7 then Simple(h)
    else if limit == 0 then Fail(NestingLimit)
    else Nested(h, Decoder(limit - 1))
  }

  function TextOf(b: Bytes): Parser<Cbor> {
    if ValidUtf8(b) then Return(Text(b)) else Fail(BadUtf8)
  }

  /** Major type 7. `undefined` reads as null; a double is the only float width of this codec. */
  function Simple(h: HeadInfo): Parser<Cbor> {
    if h.info == 20 then Return(Bool(false))
    else if h.info == 21 then Return(Bool(true))
    else if h.info == 22 || h.info == 23 then Return(Null)
    else if h.info == 27 then Return(Float(h.arg))
    else if h.info < 25 then Fail(ReservedSimple)
    else Fail(InvalidMajor)
  }

  /** Arrays, maps and tags, whose parts are read by `item`. */
  function Nested(h: HeadInfo, item: Parser<Cbor>): Parser<Cbor> {
    if h.major == 4 then Bind(Repeat(item, h.arg), (items: seq<Cbor>) => Return(Array(items)))
    else if h.major == 5 then
      Bind(Repeat(EntryParser(item), h.arg), (entries: seq<Entry>) => Return(Map(entries)))
    else Bind(item, (inner: Cbor) => Return(Tag(h.arg, inner)))
  }

  function EntryParser(item: Parser<Cbor>): Parser<Entry> {
    Bind(item, (key: Cbor) => ValueParser(item, key))
  }

  function ValueParser(item: Parser<Cbor>, key: Cbor): Parser<Entry> {
    Bind(item, (val: Cbor) => Return(Entry(key, val)))
  }

  /** `parse`: one item, what follows it ignored. */
  function Parse(bs: Bytes): Parsed<Cbor> {
    Decoder(MAX_NESTING)(bs)
  }

  // ---- The decoder is self-delimiting ----

  lemma HeadDelimited()
    ensures Delimited(HeadParser())
    ensures HeadParser()([]) == Failed(Truncated)
    ensures forall bs :: HeadParser()(bs).Got? ==> |HeadParser()(bs).rest| < |bs|
  {
    forall b: byte
      ensures Delimited(HeadFrom(b))
    {
      HeadFromDelimited(b);
    }
    forall bs, more
      ensures Local(InitialByte(), bs, more)
    {
      if |bs| > 0 {
        assert (bs[..1] + more)[1..] == more;
      }
    }
    BindDelimited(InitialByte(), (b: byte) => HeadFrom(b));
    forall bs | HeadParser()(bs).Got?
      ensures |HeadParser()(bs).rest| < |bs|
    {
      assert Suffix(HeadFrom(bs[0]), bs[1..]);
    }
  }

  lemma HeadFromDelimited(b: byte)
    ensures Delimited(HeadFrom(b))
  {
    var major: Major, info := b / 32, b % 32;
    FailDelimited<HeadInfo>(InvalidMajor);
    forall n: U64
      ensures Delimited(Return(HeadInfo(major, info, n)))
    {
      ReturnDelimited(HeadInfo(major, info, n));
    }
    if 24 <= info <= 27 {
      var w := Width(info);
      forall bs, more
        ensures Local(Argument(w), bs, more)
      {
        if w <= |bs| {
          assert (bs[..w] + more)[..w] == bs[..w] && (bs[..w] + more)[w..] == more;
        }
      }
      BindDelimited(Argument(w), (n: U64) => Return(HeadInfo(major, info, n)));
    }
  }

  lemma {:induction false} DecoderDelimited(limit: nat)
    ensures SelfDelimiting(Decoder(limit))
    decreases limit, 1
  {
    HeadDelimited();
    forall h
      ensures Delimited(Body(h, limit))
    {
      BodyDelimited(h, limit);
    }
    BindDelimited(HeadParser(), (h: HeadInfo) => Body(h, limit));
    forall bs
      ensures Progress(Decoder(limit), bs)
    {
      var head := HeadParser()(bs);
      if head.Got? {
        assert Suffix(Body(head.value, limit), head.rest);
      }
    }
  }

  lemma {:induction false} BodyDelimited(h: HeadInfo, limit: nat)
    ensures Delimited(Body(h, limit))
    decreases limit, 0
  {
    if h.major == 2 || h.major == 3 {
      TakeDelimited(h.arg);
      forall b: Bytes
        ensures Delimited(Return(Blob(b))) && Delimited(TextOf(b))
      {
        ReturnDelimited(Blob(b));
        if ValidUtf8(b) {
          ReturnDelimited(Text(b));
        } else {
          FailDelimited<Cbor>(BadUtf8);
        }
      }
      BindDelimited(Take(h.arg), (b: Bytes) => Return(Blob(b)));
      BindDelimited(Take(h.arg), (b: Bytes) => TextOf(b));
    } else if 4 <= h.major < 7 && limit > 0 {
      DecoderDelimited(limit - 1);
      NestedDelimited(h, Decoder(limit - 1));
    } else {
      LeafDelimited(h, limit);
    }
  }

  lemma LeafDelimited(h: HeadInfo, limit: nat)
    requires h.major < 2 || h.major == 7 || (4 <= h.major && limit == 0)
    ensures Delimited(Body(h, limit))
  {
    ReturnDelimited(Integer(h.arg));
    ReturnDelimited(Integer(-1 - h.arg));
    ReturnDelimited(Bool(false));
    ReturnDelimited(Bool(true));
    ReturnDelimited(Null);
    ReturnDelimited(Float(h.arg));
    FailDelimited<Cbor>(ReservedSimple);
    FailDelimited<Cbor>(InvalidMajor);
    FailDelimited<Cbor>(NestingLimit);
  }

  lemma NestedDelimited(h: HeadInfo, item: Parser<Cbor>)
    requires Delimited(item)
    ensures Delimited(Nested(h, item))
  {
    forall inner: Cbor
      ensures Delimited(Return(Tag(h.arg, inner)))
    {
      ReturnDelimited(Tag(h.arg, inner));
    }
    BindDelimited(item, (inner: Cbor) => Return(Tag(h.arg, inner)));
    RepeatDelimited(item, h.arg);
    forall items: seq<Cbor>
      ensures Delimited(Return(Array(items)))
    {
      ReturnDelimited(Array(items));
    }
    BindDelimited(Repeat(item, h.arg), (items: seq<Cbor>) => Return(Array(items)));
    EntryDelimited(item);
    RepeatDelimited(EntryParser(item), h.arg);
    forall entries: seq<Entry>
      ensures Delimited(Return(Map(entries)))
    {
      ReturnDelimited(Map(entries));
    }
    BindDelimited(Repeat(EntryParser(item), h.arg), (entries: seq<Entry>) => Return(Map(entries)));
  }

  lemma EntryDelimited(item: Parser<Cbor>)
    requires Delimited(item)
    ensures Delimited(EntryParser(item))
  {
    forall key: Cbor
      ensures Delimited(ValueParser(item, key))
    {
      forall val: Cbor
        ensures Delimited(Return(Entry(key, val)))
      {
        ReturnDelimited(Entry(key, val));
      }
      BindDelimited(item, (val: Cbor) => Return(Entry(key, val)));
    }
    BindDelimited(item, (key: Cbor) => ValueParser(item, key));
  }

  // ---- Decoding inverts encoding ----

  lemma ReadArgumentOf(b: Bytes, rest: Bytes)
    requires |b| <= 8
    ensures ReadArgument(|b|, b + rest) == Got(FromBE(b), rest)
  {
    assert (b + rest)[..|b|] == b && (b + rest)[|b|..] == rest;
  }

  lemma InitialByteOf(major: Major, info: nat, tail: Bytes)
    requires info < 32
    ensures HeadParser()([32 * major + info] + tail) == HeadFrom(32 * major + info)(tail)
    ensures (32 * major + info) / 32 == major && (32 * major + info) % 32 == info
  {
    assert ([32 * major + info] + tail)[1..] == tail;
  }

  lemma ParseWideHead(major: Major, info: nat, n: U64, rest: Bytes)
    requires 24 <= info <= 27 && n < Pow256(Width(info))
    ensures HeadParser()(WideHead(major, info, n) + rest) == Got(HeadInfo(major, info, n), rest)
  {
    var b := BE(n, Width(info));
    FromBEofBE(n, Width(info));
    ReadArgumentOf(b, rest);
    InitialByteOf(major, info, b + rest);
    assert WideHead(major, info, n) + rest == [32 * major + info] + (b + rest);
  }

  lemma InfoForIsWideEnough(n: U64)
    requires n >= 24
    ensures n < Pow256(Width(InfoFor(n)))
  {
    Pow256Values();
  }

  lemma ParseHead(major: Major, n: U64, rest: Bytes)
    ensures HeadParser()(Head(major, n) + rest) == Got(HeadInfo(major, InfoFor(n), n), rest)
  {
    if n < 24 {
      InitialByteOf(major, n, rest);
    } else {
      InfoForIsWideEnough(n);
      ParseWideHead(major, InfoFor(n), n, rest);
    }
  }

  /** A head is read back, and decoding goes on behind it. */
  lemma DecodeHead(major: Major, n: U64, rest: Bytes, limit: nat)
    ensures Decoder(limit)(Head(major, n) + rest) == Body(HeadInfo(major, InfoFor(n), n), limit)(rest)
  {
    ParseHead(major, n, rest);
  }

  /** What a complete encoding followed by `rest` decodes to. */
  function Verdict<T>(v: T, depth: nat, limit: nat, rest: Bytes): Parsed<T> {
    if depth <= limit then Got(v, rest) else Failed(NestingLimit)
  }

  /** The body of a leaf takes no bytes. */
  lemma LeafBody(h: HeadInfo, rest: Bytes, limit: nat)
    ensures h.major == 0 ==> Body(h, limit)(rest) == Got(Integer(h.arg), rest)
    ensures h.major == 1 ==> Body(h, limit)(rest) == Got(Integer(-1 - h.arg), rest)
    ensures h.major == 7 && h.info == 20 ==> Body(h, limit)(rest) == Got(Bool(false), rest)
    ensures h.major == 7 && h.info == 21 ==> Body(h, limit)(rest) == Got(Bool(true), rest)
    ensures h.major == 7 && h.info == 22 ==> Body(h, limit)(rest) == Got(Null, rest)
    ensures h.major == 7 && h.info == 27 ==> Body(h, limit)(rest) == Got(Float(h.arg), rest)
  {
  }

  lemma DecodeOfFloat(f: U64, rest: Bytes, limit: nat)
    ensures Decoder(limit)(Encode(Float(f)) + rest) == Got(Float(f), rest)
  {
    hide BE, HeadParser, HeadFrom, Nested;
    Pow256Values();
    ParseWideHead(7, 27, f, rest);
    LeafBody(HeadInfo(7, 27, f), rest, limit);
  }

  lemma DecodeOfLeaf(v: Cbor, rest: Bytes, limit: nat)
    requires v.Null? || v.Bool? || v.Integer? || v.Float?
    ensures Decoder(limit)(Encode(v) + rest) == Got(v, rest)
  {
    hide Decoder, Body, WideHead;
    match v
    case Null =>
      DecodeHead(7, 22, rest, limit);
      LeafBody(HeadInfo(7, InfoFor(22), 22), rest, limit);
    case Bool(b) =>
      var info := if b then 21 else 20;
      DecodeHead(7, info, rest, limit);
      LeafBody(HeadInfo(7, InfoFor(info), info), rest, limit);
    case Integer(n) =>
      var major, arg := if n >= 0 then 0 else 1, if n >= 0 then n else -1 - n;
      DecodeHead(major, arg, rest, limit);
      LeafBody(HeadInfo(major, InfoFor(arg), arg), rest, limit);
    case Float(f) => DecodeOfFloat(f, rest, limit);
  }

  /** The body of a string takes the bytes its head announces. */
  lemma StringBody(info: nat, b: Bytes, rest: Bytes, limit: nat)
    requires |b| < TWO_64
    ensures Body(HeadInfo(2, info, |b|), limit)(b + rest) == Got(Blob(b), rest)
    ensures ValidUtf8(b) ==> Body(HeadInfo(3, info, |b|), limit)(b + rest) == Got(Text(b), rest)
  {
    hide Decoder, Nested, Simple, ValidUtf8;
    assert (b + rest)[..|b|] == b && (b + rest)[|b|..] == rest;
  }

  lemma DecodeOfString(b: Bytes, rest: Bytes, limit: nat)
    requires |b| < TWO_64
    ensures Decoder(limit)(Head(2, |b|) + b + rest) == Got(Blob(b), rest)
    ensures ValidUtf8(b) ==> Decoder(limit)(Head(3, |b|) + b + rest) == Got(Text(b), rest)
  {
    hide Decoder, Body, Head, ValidUtf8;
    assert Head(2, |b|) + b + rest == Head(2, |b|) + (b + rest);
    assert Head(3, |b|) + b + rest == Head(3, |b|) + (b + rest);
    DecodeHead(2, |b|, b + rest, limit);
    DecodeHead(3, |b|, b + rest, limit);
    StringBody(InfoFor(|b|), b, rest, limit);
  }

  lemma DecodeOfParts(major: Major, n: U64, parts: Bytes, rest: Bytes, limit: nat)
    ensures Decoder(limit)(Head(major, n) + parts + rest)
            == Body(HeadInfo(major, InfoFor(n), n), limit)(parts + rest)
  {
    assert Head(major, n) + parts + rest == Head(major, n) + (parts + rest);
    DecodeHead(major, n, parts + rest, limit);
  }

  /** A container is a verdict on its parts, one level deeper. */
  lemma NestedVerdict(v: Cbor, info: nat, depth: nat, limit: nat, bs: Bytes, rest: Bytes)
    requires v.Array? ==> |v.items| < TWO_64 && (limit > 0 ==>
      Repeat(Decoder(limit - 1), |v.items|)(bs) == Verdict(v.items, depth, limit - 1, rest))
    requires v.Map? ==> |v.entries| < TWO_64 && (limit > 0 ==>
      Repeat(EntryParser(Decoder(limit - 1)), |v.entries|)(bs) == Verdict(v.entries, depth, limit - 1, rest))
    requires v.Tag? ==> (limit > 0 ==> Decoder(limit - 1)(bs) == Verdict(v.inner, depth, limit - 1, rest))
    ensures v.Array? ==> Body(HeadInfo(4, info, |v.items|), limit)(bs) == Verdict(v, 1 + depth, limit, rest)
    ensures v.Map? ==> Body(HeadInfo(5, info, |v.entries|), limit)(bs) == Verdict(v, 1 + depth, limit, rest)
    ensures v.Tag? ==> Body(HeadInfo(6, info, v.tag), limit)(bs) == Verdict(v, 1 + depth, limit, rest)
  {
  }

  /** A value nested within the limit decodes back to itself and leaves what follows untouched; a deeper one is
      refused as too deep, never misread. */
  lemma {:induction false} DecodeOfEncode(v: Cbor, rest: Bytes, limit: nat)
    requires Addressable(v)
    ensures Decoder(limit)(Encode(v) + rest) == Verdict(v, Depth(v), limit, rest)
    decreases v, 1
  {
    hide Decoder, Body;
    match v
    case Array(items) =>
      DecodeOfParts(4, |items|, EncodeAll(items), rest, limit);
      if limit > 0 {
        DecodeOfEncodeAll(items, rest, limit - 1);
      }
      NestedVerdict(v, InfoFor(|items|), DepthAll(items), limit, EncodeAll(items) + rest, rest);
    case Map(entries) =>
      DecodeOfParts(5, |entries|, EncodeEntries(entries), rest, limit);
      if limit > 0 {
        DecodeOfEncodeEntries(entries, rest, limit - 1);
      }
      NestedVerdict(v, InfoFor(|entries|), DepthEntries(entries), limit, EncodeEntries(entries) + rest, rest);
    case Tag(tag, inner) =>
      DecodeOfParts(6, tag, Encode(inner), rest, limit);
      if limit > 0 {
        DecodeOfEncode(inner, rest, limit - 1);
      }
      NestedVerdict(v, InfoFor(tag), Depth(inner), limit, Encode(inner) + rest, rest);
    case Blob(b) => DecodeOfString(b, rest, limit);
    case Text(s) => DecodeOfString(s, rest, limit);
    case _ => DecodeOfLeaf(v, rest, limit);
  }

  /** One more item in a row. */
  lemma RepeatStep<T(!new)>(p: Parser<T>, n: nat, bs: Bytes, v: T, depth: nat, more: Bytes,
                            vs: seq<T>, depths: nat, limit: nat, rest: Bytes)
    requires n > 0
    requires p(bs) == Verdict(v, depth, limit, more)
    requires Repeat(p, n - 1)(more) == Verdict(vs, depths, limit, rest)
    ensures Repeat(p, n)(bs) == Verdict([v] + vs, Max(depth, depths), limit, rest)
  {
  }

  lemma {:induction false} DecodeOfEncodeAll(items: seq<Cbor>, rest: Bytes, limit: nat)
    requires AddressableAll(items)
    ensures Repeat(Decoder(limit), |items|)(EncodeAll(items) + rest) == Verdict(items, DepthAll(items), limit, rest)
    decreases items, 0
  {
    hide Decoder;
    if |items| > 0 {
      var v, vs := items[0], items[1..];
      var tail := EncodeAll(vs) + rest;
      assert EncodeAll(items) + rest == Encode(v) + tail;
      DecodeOfEncode(v, tail, limit);
      DecodeOfEncodeAll(vs, rest, limit);
      RepeatStep(Decoder(limit), |items|, Encode(v) + tail, v, Depth(v), tail, vs, DepthAll(vs), limit, rest);
      assert [v] + vs == items;
    } else {
      assert EncodeAll(items) + rest == rest;
    }
  }

  lemma {:induction false} DecodeOfEncodeEntries(entries: seq<Entry>, rest: Bytes, limit: nat)
    requires AddressableEntries(entries)
    ensures Repeat(EntryParser(Decoder(limit)), |entries|)(EncodeEntries(entries) + rest)
            == Verdict(entries, DepthEntries(entries), limit, rest)
    decreases entries, 0
  {
    hide Decoder;
    if |entries| > 0 {
      var e, es := entries[0], entries[1..];
      assert e.key < e && e.val < e;
      var tail := EncodeEntries(es) + rest;
      var bs := Encode(e.key) + (Encode(e.val) + tail);
      assert EncodeEntries(entries) + rest == bs;
      DecodeOfEncode(e.key, Encode(e.val) + tail, limit);
      DecodeOfEncode(e.val, tail, limit);
      DecodeOfEncodeEntries(es, rest, limit);
      RepeatStep(EntryParser(Decoder(limit)), |entries|, bs, e, Max(Depth(e.key), Depth(e.val)), tail,
                 es, DepthEntries(es), limit, rest);
      assert [e] + es == entries;
    } else {
      assert EncodeEntries(entries) + rest == rest;
    }
  }

  /** No encoding is a prefix of another value's encoding; in particular encoding is injective. */
  lemma EncodePrefixFree(a: Cbor, b: Cbor)
    requires Addressable(a) && Addressable(b)
    requires Encode(a) <= Encode(b)
    ensures a == b
  {
    hide Encode, Decoder, Depth, Addressable;
    var limit := Max(Depth(a), Depth(b));
    var tail := Encode(b)[|Encode(a)|..];
    assert Encode(a) + tail == Encode(b) + [];
    DecodeOfEncode(a, tail, limit);
    DecodeOfEncode(b, [], limit);
  }

  /** The encodings of a list of values. */
  function EncodeEach(vs: seq<Cbor>): (r: seq<Bytes>)
    ensures |r| == |vs|
  {
    seq(|vs|, i requires 0 <= i < |vs| => Encode(vs[i]))
  }

  /** A CBOR Sequence of values within the nesting limit, cut after `k` bytes: the decoder yields exactly the values
      whose encodings lie before the cut, and an error exactly when the cut is not between two of them. */
  lemma CutEncoded(vs: seq<Cbor>, k: nat, limit: nat)
    requires forall v | v in vs :: Addressable(v) && Depth(v) <= limit
    requires k <= |Concat(EncodeEach(vs))|
    ensures SelfDelimiting(Decoder(limit))
    ensures var n := WholeChunks(EncodeEach(vs), k);
            Items(Decoder(limit), Concat(EncodeEach(vs))[..k], 0)
            == SeqParse(vs[..n], if |Concat(EncodeEach(vs)[..n])| == k then None else Some(SeqError(n, Truncated)))
  {
    hide Decoder, Encode, Addressable, Depth, SelfDelimiting;
    DecoderDelimited(limit);
    forall i | 0 <= i < |vs|
      ensures Decoder(limit)(EncodeEach(vs)[i]) == Got(vs[i], [])
    {
      DecodeOfEncode(vs[i], [], limit);
      assert Encode(vs[i]) + [] == Encode(vs[i]);
    }
    CutSequence(Decoder(limit), vs, EncodeEach(vs), k, 0);
  }
}
