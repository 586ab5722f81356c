/** The two value models: CBOR (RFC 8949) and MessagePack, and the operations of the platform the program calls. */
module Values {
  import opened Base

  // ---- Text: its UTF-8 bytes (RFC 3629) ----

  predicate Continuation(b: byte) {
    0x80 <= b < 0xC0
  }

  predicate ValidUtf8(s: Bytes) {
    || |s| == 0
    || (s[0] < 0x80 && ValidUtf8(s[1..]))
    || (|s| >= 2 && 0xC2 <= s[0] <= 0xDF && Continuation(s[1]) && ValidUtf8(s[2..]))
    || (|s| >= 3 && Continuation(s[1]) && Continuation(s[2]) && ValidUtf8(s[3..])
        && (|| (s[0] == 0xE0 && s[1] >= 0xA0)
            || (s[0] == 0xED && s[1] <= 0x9F)
            || 0xE1 <= s[0] <= 0xEC
            || 0xEE <= s[0] <= 0xEF))
    || (|s| >= 4 && Continuation(s[1]) && Continuation(s[2]) && Continuation(s[3]) && ValidUtf8(s[4..])
        && (|| (s[0] == 0xF0 && s[1] >= 0x90)
            || (s[0] == 0xF4 && s[1] <= 0x8F)
            || 0xF1 <= s[0] <= 0xF3))
  }

  type Utf8 = s: Bytes | ValidUtf8(s)

  /** The bytes of an ASCII literal. */
  function Ascii(s: string): (r: Utf8)
    requires forall i | 0 <= i < |s| :: s[i] < '\U{0080}'
    ensures |r| == |s|
  {
    if |s| == 0 then [] else
      var rest := Ascii(s[1..]);
      var r: Bytes := [s[0] as int] + rest;
      assert r[1..] == rest;
      r
  }

  lemma {:induction false} AsciiAt(s: string)
    requires forall i | 0 <= i < |s| :: s[i] < '\U{0080}'
    ensures forall i | 0 <= i < |s| :: Ascii(s)[i] == s[i] as int
  {
    if |s| > 0 {
      AsciiAt(s[1..]);
    }
  }

  // ---- CBOR ----

  /** A native CBOR integer: major types 0 and 1. */
  type CborInt = n: int | -TWO_64 <= n < TWO_64

  /** An IEEE 754 double or single, as its bits; arithmetic on them is the platform's. */
  type F64 = U64
  type F32 = n: int | 0 <= n < TWO_32

  datatype Cbor =
    | Null
    | Bool(b: bool)
    | Integer(n: CborInt)
    | Float(f: F64)
    | Text(s: Utf8)
    | Blob(bytes: Bytes)
    | Array(items: seq<Cbor>)
    | Map(entries: seq<Entry>)
    | Tag(tag: U64, inner: Cbor)

  datatype Entry = Entry(key: Cbor, val: Cbor)

  // ---- MessagePack ----

  type MpInt = n: int | -TWO_63 <= n < TWO_64
  type I8 = n: int | -128 <= n < 128

  datatype Mp =
    | Nil
    | Boolean(b: bool)
    | MpInteger(n: MpInt)
    | MpF32(single: F32)
    | MpF64(f: F64)
    | MpString(raw: Bytes)
    | MpBinary(bytes: Bytes)
    | MpArray(items: seq<Mp>)
    | MpMap(entries: seq<MpEntry>)
    | MpExt(code: I8, data: Bytes)

  datatype MpEntry = MpEntry(key: Mp, val: Mp)

  // ---- The platform ----

  type Nanos = n: int | 0 <= n < 1_000_000_000

  /** Float arithmetic and JSON text, which the program takes from its platform. Every statement holds whatever
      these operations are, unless it names a law of theirs. */
  datatype Platform = Platform(
    ofInt: int -> F64,                          // `n as f64`
    ofDecimal: (int, int) -> F64,               // `m as f64 * 10f64.powi(e)`
    integral: F64 -> Option<I128>,              // `f as i128` of a finite float without fraction
    scaled: (F64, int) -> Option<int>,          // `(f * 10f64.powi(k)).round()` when finite
    instant: F64 -> Option<(I64, Nanos)>,       // floor and rounded nanoseconds of a finite float
    narrow: F64 -> F32,                         // `f as f32`
    widen: F32 -> F64,                          // `f as f64`
    jsonText: Cbor -> Utf8                      // `to_json_value(v).to_string()`
  )

  // ---- Shape of a value ----

  function Max(a: nat, b: nat): nat {
    if a > b then a else b
  }

  /** Nesting depth: arrays, maps and tags each add one level. */
  function Depth(v: Cbor): nat {
    match v
    case Array(items) => 1 + DepthAll(items)
    case Map(entries) => 1 + DepthEntries(entries)
    case Tag(_, inner) => 1 + Depth(inner)
    case _ => 0
  }

  function DepthAll(items: seq<Cbor>): nat {
    if |items| == 0 then 0 else Max(Depth(items[0]), DepthAll(items[1..]))
  }

  function DepthEntries(entries: seq<Entry>): nat {
    if |entries| == 0 then 0 else
      assert entries[0].key < entries[0] && entries[0].val < entries[0];
      Max(Max(Depth(entries[0].key), Depth(entries[0].val)), DepthEntries(entries[1..]))
  }

  /** Every length in the value fits the machine word (`usize`), as it does for any value in memory. */
  predicate Addressable(v: Cbor) {
    match v
    case Text(s) => |s| < TWO_64
    case Blob(b) => |b| < TWO_64
    case Array(items) => |items| < TWO_64 && AddressableAll(items)
    case Map(entries) => |entries| < TWO_64 && AddressableEntries(entries)
    case Tag(_, inner) => Addressable(inner)
    case _ => true
  }

  predicate AddressableAll(items: seq<Cbor>) {
    |items| == 0 || (Addressable(items[0]) && AddressableAll(items[1..]))
  }

  predicate AddressableEntries(entries: seq<Entry>) {
    if |entries| == 0 then true else
      assert entries[0].key < entries[0] && entries[0].val < entries[0];
      Addressable(entries[0].key) && Addressable(entries[0].val) && AddressableEntries(entries[1..])
  }

  /** `untag`: the content below every semantic tag. */
  function Content(v: Cbor): (r: Cbor)
    ensures !r.Tag?
  {
    if v.Tag? then Content(v.inner) else v
  }

  /** The value behind a stack of tags, the first of them outermost. */
  function Tagged(tags: seq<U64>, v: Cbor): Cbor {
    if |tags| == 0 then v else Tag(tags[0], Tagged(tags[1..], v))
  }

  /** Every value is its content behind some stack of tags. */
  lemma {:induction false} TagStack(v: Cbor) returns (tags: seq<U64>)
    ensures v == Tagged(tags, Content(v))
  {
    tags := [];
    if v.Tag? {
      var rest := TagStack(v.inner);
      tags := [v.tag] + rest;
      assert tags[1..] == rest;
    }
  }

  lemma {:induction false} ContentOfTagged(tags: seq<U64>, v: Cbor)
    ensures Content(Tagged(tags, v)) == Content(v)
  {
    if |tags| > 0 {
      ContentOfTagged(tags[1..], v);
    }
  }

  /** `is_null`: CBOR null, tagged or not. */
  predicate IsNull(v: Cbor) {
    Content(v).Null? || v.Null?
  }

  /** The loop of `untag` reaches the content. */
  method Untag(v: Cbor) returns (cur: Cbor)
    ensures cur == Content(v)
  {
    cur := v;
    while cur.Tag?
      invariant Content(cur) == Content(v)
      decreases cur
    {
      cur := cur.inner;
    }
  }
}
