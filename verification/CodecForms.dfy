/** The literal forms of the item codec (sections 3 and 3.3 of RFC 8949), and what its decoder accepts beyond what its
    encoder writes; and UTF-8 (section 3 of RFC 3629) for the texts in it. */
module CodecForms {
  import opened Base
  import opened Values
  import opened Framing
  import opened ItemCodec

  // ---- Heads ----

  /** The argument behind a head, in one of four widths. */
  predicate ArgumentOf(info: int, b: Bytes, n: int) {
    && FromBE(b) == n
    && ((info == 24 && |b| == 1) || (info == 25 && |b| == 2) || (info == 26 && |b| == 4) || (info == 27 && |b| == 8))
  }

  /** A head is its major type in three bits and, in five, its argument below 24; otherwise the narrowest of four widths
      that holds the argument behind it. */
  lemma HeadForms(major: Major, n: U64)
    ensures n < 24 ==> Head(major, n) == [major * 32 + n]
    ensures n >= 24 ==> var r := Head(major, n);
              && r[0] == major * 32 + (if n <= 255 then 24 else if n <= 65_535 then 25
                                       else if n <= 4_294_967_295 then 26 else 27)
              && ArgumentOf(r[0] - major * 32, r[1..], n)
  {
    if n >= 24 {
      var w := Width(InfoFor(n));
      InfoForIsWideEnough(n);
      FromBEofBE(n, w);
      assert Head(major, n)[1..] == BE(n, w);
    }
    hide BE, FromBE;
  }

  /** How each value begins: the major types 0 to 6, and the simple values and doubles of major type 7. */
  lemma EncodeForms(v: Cbor)
    requires Addressable(v)
    ensures match v
            case Integer(n) => Encode(v) == if n >= 0 then Head(0, n) else Head(1, -1 - n)
            case Blob(b) => Encode(v) == Head(2, |b|) + b
            case Text(s) => Encode(v) == Head(3, |s|) + s
            case Array(items) => Encode(v) == Head(4, |items|) + Concat(EncodeEach(items))
            case Map(entries) => Head(5, |entries|) <= Encode(v)
            case Tag(tag, inner) => Encode(v) == Head(6, tag) + Encode(inner)
            case Bool(b) => Encode(v) == [if b then 245 else 244]
            case Null => Encode(v) == [246]
            case Float(f) => |Encode(v)| == 9 && Encode(v)[0] == 251 && FromBE(Encode(v)[1..]) == f
  {
    match v
    case Array(items) => AllIsEach(items);
    case Float(f) =>
      Pow256Values();
      FromBEofBE(f, 8);
      assert Encode(v)[1..] == BE(f, 8);
    case _ =>
  }

  lemma {:induction false} AllIsEach(items: seq<Cbor>)
    ensures EncodeAll(items) == Concat(EncodeEach(items))
  {
    hide Encode;
    if |items| > 0 {
      AllIsEach(items[1..]);
      assert EncodeEach(items)[1..] == EncodeEach(items[1..]);
    }
  }

  /** Entries follow each other, each key before its value. */
  lemma EntryForms(e: Entry, rest: seq<Entry>)
    ensures EncodeEntries([]) == []
    ensures EncodeEntries([e] + rest) == Encode(e.key) + Encode(e.val) + EncodeEntries(rest)
  {
    hide Encode;
    assert ([e] + rest)[1..] == rest;
  }

  /** Decoding accepts every head, also one that is wider than its argument needs: it means the same as the
      narrowest. */
  lemma WideHeads(major: Major, info: nat, b: Bytes, rest: Bytes, limit: nat)
    requires major < 7 && ArgumentOf(info, b, FromBE(b))
    ensures FromBE(b) < TWO_64
    ensures Decoder(limit)([major * 32 + info] + b + rest) == Decoder(limit)(Head(major, FromBE(b)) + rest)
  {
    hide Decoder, Head, Body;
    ArgumentBound(b);
    var n := FromBE(b);
    WideHeadRead(major, info, b, rest, limit);
    DecodeHead(major, n, rest, limit);
    SameBody(HeadInfo(major, info, n), HeadInfo(major, InfoFor(n), n), rest, limit);
  }

  lemma WideHeadRead(major: Major, info: nat, b: Bytes, rest: Bytes, limit: nat)
    requires ArgumentOf(info, b, FromBE(b)) && FromBE(b) < TWO_64
    ensures Decoder(limit)([major * 32 + info] + b + rest) == Body(HeadInfo(major, info, FromBE(b)), limit)(rest)
  {
    hide Body, FromBE;
    ReadArgumentOf(b, rest);
    InitialByteOf(major, info, b + rest);
    assert [major * 32 + info] + b + rest == [32 * major + info] + (b + rest);
  }

  /** Below major type 7 the width of the argument makes no difference. */
  lemma SameBody(a: HeadInfo, b: HeadInfo, rest: Bytes, limit: nat)
    requires a.major == b.major < 7 && a.arg == b.arg
    ensures Body(a, limit)(rest) == Body(b, limit)(rest)
  {
  }

  /** The simple values: false, true, null, and undefined, which reads as null; all others are reserved. */
  lemma SimpleForms(rest: Bytes, limit: nat, b: byte)
    requires 224 <= b < 248
    ensures Decoder(limit)([b] + rest)
            == if b == 244 then Got(Bool(false), rest)
               else if b == 245 then Got(Bool(true), rest)
               else if b == 246 || b == 247 then Got(Null, rest)
               else Failed(ReservedSimple)
  {
    hide Decoder, Nested;
    OneByteHead(b, rest, limit);
    assert b / 32 == 7 && b % 32 == b - 224;
  }

  /** A simple value in a second byte is reserved too. */
  lemma SimpleByte(b: byte, rest: Bytes, limit: nat)
    ensures Decoder(limit)([248, b] + rest) == Failed(ReservedSimple)
  {
    hide FromBE, Nested;
    assert [248, b] + rest == [248] + ([b] + rest);
    ReadArgumentOf([b], rest);
    InitialByteOf(7, 24, [b] + rest);
    assert HeadParser()([248] + ([b] + rest)) == Got(HeadInfo(7, 24, FromBE([b])), rest);
    hide HeadParser;
  }

  /** The narrower float widths are not accepted by this codec. */
  lemma NarrowFloats(info: nat, b: Bytes, rest: Bytes, limit: nat)
    requires (info == 25 && |b| == 2) || (info == 26 && |b| == 4)
    ensures Decoder(limit)([224 + info] + b + rest) == Failed(InvalidMajor)
  {
    hide Nested;
    ArgumentBound(b);
    WideHeadRead(7, info, b, rest, limit);
    hide Decoder, FromBE;
  }

  lemma OneByteHead(b: byte, rest: Bytes, limit: nat)
    ensures b % 32 < 24 ==> Decoder(limit)([b] + rest) == Body(HeadInfo(b / 32, b % 32, b % 32), limit)(rest)
  {
    assert ([b] + rest)[1..] == rest;
  }

  /** Additional information 28 to 31 announces nothing this codec accepts. */
  lemma ReservedHeads(b: byte, rest: Bytes, limit: nat)
    requires b % 32 >= 28
    ensures Decoder(limit)([b] + rest) == Failed(InvalidMajor)
  {
    assert ([b] + rest)[1..] == rest;
  }

  /** A text string whose bytes are not UTF-8 is refused as such. */
  lemma BadText(b: Bytes, rest: Bytes, limit: nat)
    requires |b| < TWO_64 && !ValidUtf8(b)
    ensures Decoder(limit)(Head(3, |b|) + b + rest) == Failed(BadUtf8)
  {
    hide Decoder, Head, Nested, ValidUtf8;
    DecodeHead(3, |b|, b + rest, limit);
    assert Head(3, |b|) + b + rest == Head(3, |b|) + (b + rest);
    assert (b + rest)[..|b|] == b && (b + rest)[|b|..] == rest;
  }

  // ---- UTF-8 ----

  /** A Unicode scalar value. */
  type Scalar = c: int | 0 <= c <= 0x10_FFFF && !(0xD800 <= c <= 0xDFFF)

  /** The one to four bytes of a scalar value. */
  function ScalarBytes(c: Scalar): (r: Bytes)
    ensures 1 <= |r| <= 4
  {
    if c < 0x80 then [c]
    else if c < 0x800 then [0xC0 + c / 64, 0x80 + c % 64]
    else if c < 0x1_0000 then [0xE0 + c / 4096, 0x80 + c / 64 % 64, 0x80 + c % 64]
    else [0xF0 + c / 262_144, 0x80 + c / 4096 % 64, 0x80 + c / 64 % 64, 0x80 + c % 64]
  }

  function TextBytes(cs: seq<Scalar>): Bytes {
    if |cs| == 0 then [] else ScalarBytes(cs[0]) + TextBytes(cs[1..])
  }

  lemma ScalarThenText(c: Scalar, s: Bytes)
    ensures ValidUtf8(ScalarBytes(c) + s) <==> ValidUtf8(s)
  {
    ScalarRange(c);
    var b := ScalarBytes(c);
    hide ScalarBytes;
    var all := b + s;
    assert all[|b|..] == s;
    assert all[0] == b[0] && (|b| > 1 ==> all[1] == b[1]) && (|b| > 2 ==> all[2] == b[2])
        && (|b| > 3 ==> all[3] == b[3]);
  }

  /** The length is told by the first byte, and the others continue it. */
  lemma ScalarRange(c: Scalar)
    ensures var b := ScalarBytes(c);
            && (|b| == 1 ==> b[0] < 0x80)
            && (|b| == 2 ==> 0xC2 <= b[0] <= 0xDF && Continuation(b[1]))
            && (|b| == 3 ==> Continuation(b[1]) && Continuation(b[2])
                             && ((b[0] == 0xE0 && b[1] >= 0xA0) || (b[0] == 0xED && b[1] <= 0x9F)
                                 || 0xE1 <= b[0] <= 0xEC || 0xEE <= b[0] <= 0xEF))
            && (|b| == 4 ==> Continuation(b[1]) && Continuation(b[2]) && Continuation(b[3])
                             && ((b[0] == 0xF0 && b[1] >= 0x90) || (b[0] == 0xF4 && b[1] <= 0x8F)
                                 || 0xF1 <= b[0] <= 0xF3))
  {
  }

  lemma {:induction false} TextValid(cs: seq<Scalar>)
    ensures ValidUtf8(TextBytes(cs))
  {
    hide ScalarBytes, ValidUtf8;
    if |cs| == 0 {
      EmptyValid();
    } else {
      TextValid(cs[1..]);
      ScalarThenText(cs[0], TextBytes(cs[1..]));
    }
  }

  lemma EmptyValid()
    ensures ValidUtf8([])
  {
  }

  lemma TwoBytes(a: byte, b: byte) returns (c: Scalar)
    requires 0xC2 <= a <= 0xDF && Continuation(b)
    ensures ScalarBytes(c) == [a, b]
  {
    var x: int, y: int := a, b;
    c := (x - 0xC0) * 64 + (y - 0x80);
  }

  lemma ThreeBytes(a: byte, b: byte, d: byte) returns (c: Scalar)
    requires Continuation(b) && Continuation(d)
    requires (a == 0xE0 && b >= 0xA0) || (a == 0xED && b <= 0x9F) || 0xE1 <= a <= 0xEC || 0xEE <= a <= 0xEF
    ensures ScalarBytes(c) == [a, b, d]
  {
    var x: int, y: int, z: int := a, b, d;
    var n := (x - 0xE0) * 4096 + (y - 0x80) * 64 + (z - 0x80);
    assert n / 4096 == x - 0xE0 && n / 64 % 64 == y - 0x80 && n % 64 == z - 0x80;
    c := n;
  }

  lemma Digits64(x: int, y: int, z: int, w: int)
    requires 0 <= y < 64 && 0 <= z < 64 && 0 <= w < 64
    ensures var n := x * 262_144 + y * 4096 + z * 64 + w;
            n / 262_144 == x && n / 4096 % 64 == y && n / 64 % 64 == z && n % 64 == w
  {
    var n := x * 262_144 + y * 4096 + z * 64 + w;
    assert n / 64 == x * 4096 + y * 64 + z;
    assert n / 4096 == x * 64 + y;
  }

  lemma FourBytes(a: byte, b: byte, d: byte, e: byte) returns (c: Scalar)
    requires Continuation(b) && Continuation(d) && Continuation(e)
    requires (a == 0xF0 && b >= 0x90) || (a == 0xF4 && b <= 0x8F) || 0xF1 <= a <= 0xF3
    ensures ScalarBytes(c) == [a, b, d, e]
  {
    var x: int, y: int, z: int, w: int := a, b, d, e;
    var n := (x - 0xF0) * 262_144 + (y - 0x80) * 4096 + (z - 0x80) * 64 + (w - 0x80);
    Digits64(x - 0xF0, y - 0x80, z - 0x80, w - 0x80);
    c := n;
  }

  /** The scalar value a valid text starts with. */
  lemma FirstScalar(s: Bytes) returns (c: Scalar)
    requires ValidUtf8(s) && |s| > 0
    ensures ScalarBytes(c) <= s && ValidUtf8(s[|ScalarBytes(c)|..])
  {
    hide ScalarBytes;
    if s[0] < 0x80 {
      c := s[0];
      AsciiByte(c);
      assert s[..1] == [s[0]];
    } else if s[0] < 0xE0 {
      c := TwoBytes(s[0], s[1]);
      assert s[..2] == [s[0], s[1]];
    } else if s[0] < 0xF0 {
      c := ThreeBytes(s[0], s[1], s[2]);
      assert s[..3] == [s[0], s[1], s[2]];
    } else {
      c := FourBytes(s[0], s[1], s[2], s[3]);
      assert s[..4] == [s[0], s[1], s[2], s[3]];
    }
  }

  lemma AsciiByte(c: Scalar)
    ensures c < 0x80 ==> ScalarBytes(c) == [c]
  {
  }

  lemma {:induction false} TextOfValid(s: Bytes) returns (cs: seq<Scalar>)
    requires ValidUtf8(s)
    ensures TextBytes(cs) == s
    decreases |s|
  {
    hide ScalarBytes, ValidUtf8;
    cs := [];
    if |s| > 0 {
      var c := FirstScalar(s);
      var rest := s[|ScalarBytes(c)|..];
      var more := TextOfValid(rest);
      cs := [c] + more;
      assert cs[1..] == more && s == ScalarBytes(c) + rest;
    }
  }

  /** The texts are exactly the encodings of sequences of scalar values: no surrogate, no form longer than needed, and
      nothing above U+10FFFF. */
  lemma Utf8Iff(s: Bytes)
    ensures ValidUtf8(s) <==> exists cs: seq<Scalar> :: TextBytes(cs) == s
  {
    hide ValidUtf8, TextBytes;
    if ValidUtf8(s) {
      var cs := TextOfValid(s);
    }
    if cs: seq<Scalar> :| TextBytes(cs) == s {
      TextValid(cs);
    }
  }
}
