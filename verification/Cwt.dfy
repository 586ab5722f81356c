/** CWT claim extraction: COSE messages and tags are unwrapped until a claims map is reached. */
module Cwt {
  import opened Base
  import opened Values
  import opened Framing
  import opened ItemCodec
  import opened Json

  const SELF_DESCRIBE: U64 := 55799
  const CWT_TAG: U64 := 61

  // ---- How much input a decoded value takes ----

  /** A lower bound of the bytes an item of this value takes: one for its head, and its content. */
  function Size(v: Cbor): (n: nat)
    ensures n > 0
  {
    match v
    case Text(s) => 1 + |s|
    case Blob(b) => 1 + |b|
    case Array(items) => 1 + SizeAll(items)
    case Map(entries) => 1 + SizeEntries(entries)
    case Tag(_, inner) => 1 + Size(inner)
    case _ => 1
  }

  function SizeAll(items: seq<Cbor>): nat {
    if |items| == 0 then 0 else Size(items[0]) + SizeAll(items[1..])
  }

  function SizeEntries(entries: seq<Entry>): nat {
    if |entries| == 0 then 0 else
      assert entries[0].key < entries[0] && entries[0].val < entries[0];
      Size(entries[0].key) + Size(entries[0].val) + SizeEntries(entries[1..])
  }

  /** The parser takes at least `cost` of its value from the input, given `paid` already. */
  ghost predicate Spends<T(!new)>(p: Parser<T>, cost: T -> int, paid: int) {
    forall bs | p(bs).Got? :: cost(p(bs).value) - paid <= |bs| - |p(bs).rest|
  }

  lemma BindSpends<T(!new), U(!new)>(p: Parser<T>, f: T -> Parser<U>, first: T -> int, cost: U -> int, paid: int)
    requires Spends(p, first, 0)
    requires forall v :: Spends(f(v), cost, paid + first(v))
    ensures Spends(Bind(p, f), cost, paid)
  {
    forall bs | Bind(p, f)(bs).Got?
      ensures cost(Bind(p, f)(bs).value) - paid <= |bs| - |Bind(p, f)(bs).rest|
    {
      assert Spends(f(p(bs).value), cost, paid + first(p(bs).value));
    }
  }

  lemma {:induction false} RepeatSpends<T(!new)>(p: Parser<T>, n: nat, cost: T -> int, total: seq<T> -> int)
    requires Spends(p, cost, 0)
    requires total([]) == 0 && forall v, vs :: total([v] + vs) == cost(v) + total(vs)
    ensures Spends(Repeat(p, n), total, 0)
  {
    if n > 0 {
      var tail := Repeat(p, n - 1);
      RepeatSpends(p, n - 1, cost, total);
      forall v: T
        ensures Spends(Bind(tail, (vs: seq<T>) => Return([v] + vs)), total, cost(v))
      {
        BindSpends(tail, (vs: seq<T>) => Return([v] + vs), total, total, cost(v));
      }
      BindSpends(p, (v: T) => Bind(tail, (vs: seq<T>) => Return([v] + vs)), cost, total, 0);
    }
  }

  function Cost(v: Cbor): int {
    Size(v)
  }

  function CostAll(items: seq<Cbor>): int {
    SizeAll(items)
  }

  function CostEntry(e: Entry): int {
    Size(e.key) + Size(e.val)
  }

  function CostEntries(entries: seq<Entry>): int {
    SizeEntries(entries)
  }

  function CostLength(b: Bytes): int {
    |b|
  }

  function OneByte(h: HeadInfo): int {
    1
  }

  /** A decoded item takes at least its size from the input. */
  lemma {:induction false} DecoderSpends(limit: nat)
    ensures Spends(Decoder(limit), Cost, 0)
    decreases limit, 1
  {
    HeadDelimited();
    assert Spends(HeadParser(), OneByte, 0);
    forall h: HeadInfo
      ensures Spends(Body(h, limit), Cost, 1)
    {
      BodySpends(h, limit);
    }
    BindSpends(HeadParser(), (h: HeadInfo) => Body(h, limit), OneByte, Cost, 0);
  }

  lemma {:induction false} BodySpends(h: HeadInfo, limit: nat)
    ensures Spends(Body(h, limit), Cost, 1)
    decreases limit, 0
  {
    if h.major == 2 || h.major == 3 {
      assert Spends(Take(h.arg), CostLength, 0);
      BindSpends(Take(h.arg), (b: Bytes) => Return(Blob(b)), CostLength, Cost, 1);
      BindSpends(Take(h.arg), (b: Bytes) => TextOf(b), CostLength, Cost, 1);
    } else if 4 <= h.major < 7 && limit > 0 {
      DecoderSpends(limit - 1);
      NestedSpends(h, Decoder(limit - 1));
    }
  }

  lemma NestedSpends(h: HeadInfo, item: Parser<Cbor>)
    requires Spends(item, Cost, 0)
    ensures Spends(Nested(h, item), Cost, 1)
  {
    if h.major == 4 {
      ArraySpends(h.arg, item);
    } else if h.major == 5 {
      MapSpends(h.arg, item);
    } else {
      BindSpends(item, (inner: Cbor) => Return(Tag(h.arg, inner)), Cost, Cost, 1);
    }
  }

  lemma ArraySpends(n: nat, item: Parser<Cbor>)
    requires Spends(item, Cost, 0)
    ensures Spends(Bind(Repeat(item, n), (items: seq<Cbor>) => Return(Array(items))), Cost, 1)
  {
    SumsOfItems();
    RepeatSpends(item, n, Cost, CostAll);
    BindSpends(Repeat(item, n), (items: seq<Cbor>) => Return(Array(items)), CostAll, Cost, 1);
  }

  lemma MapSpends(n: nat, item: Parser<Cbor>)
    requires Spends(item, Cost, 0)
    ensures Spends(Bind(Repeat(EntryParser(item), n), (entries: seq<Entry>) => Return(Map(entries))), Cost, 1)
  {
    SumsOfItems();
    EntrySpends(item);
    RepeatSpends(EntryParser(item), n, CostEntry, CostEntries);
    BindSpends(Repeat(EntryParser(item), n), (entries: seq<Entry>) => Return(Map(entries)), CostEntries, Cost, 1);
  }

  lemma SumsOfItems()
    ensures forall v, vs :: CostAll([v] + vs) == Cost(v) + CostAll(vs)
    ensures forall e, es :: CostEntries([e] + es) == CostEntry(e) + CostEntries(es)
  {
    forall v: Cbor, vs: seq<Cbor>
      ensures CostAll([v] + vs) == Cost(v) + CostAll(vs)
    {
      assert ([v] + vs)[1..] == vs;
    }
    forall e: Entry, es: seq<Entry>
      ensures CostEntries([e] + es) == CostEntry(e) + CostEntries(es)
    {
      assert ([e] + es)[1..] == es;
    }
  }

  lemma EntrySpends(item: Parser<Cbor>)
    requires Spends(item, Cost, 0)
    ensures Spends(EntryParser(item), CostEntry, 0)
  {
    forall key: Cbor
      ensures Spends(ValueParser(item, key), CostEntry, Cost(key))
    {
      BindSpends(item, (val: Cbor) => Return(Entry(key, val)), Cost, CostEntry, Cost(key));
    }
    BindSpends(item, (key: Cbor) => ValueParser(item, key), Cost, CostEntry, 0);
  }

  lemma ParsedFits(bytes: Bytes)
    ensures Parse(bytes).Got? ==> Size(Parse(bytes).value) <= |bytes|
  {
    DecoderSpends(MAX_NESTING);
    DecoderDelimited(MAX_NESTING);
    assert Spends(Decoder(MAX_NESTING), Cost, 0) && Suffix(Decoder(MAX_NESTING), bytes);
  }

  // ---- COSE messages ----

  datatype Fault = Undecodable(error: DecodeError) | NotAnArray | TooShort | NoPayload | NotClaims

  datatype Reply<+T> = Done(value: T) | Faulty(fault: Fault)

  /** What decoding a COSE message yields besides its headers. */
  datatype Message = Message(tag: Option<U64>, payload: Option<Bytes>, signature: Option<Bytes>)

  /** `strip_transparent`: the value below self-describe tags. */
  function Strip(v: Cbor): (r: Cbor)
    ensures Size(r) <= Size(v)
    ensures !(r.Tag? && r.tag == SELF_DESCRIBE)
  {
    if v.Tag? && v.tag == SELF_DESCRIBE then Strip(v.inner) else v
  }

  method StripTransparent(v: Cbor) returns (r: Cbor)
    ensures r == Strip(v)
  {
    r := v;
    while r.Tag? && r.tag == SELF_DESCRIBE
      invariant Strip(r) == Strip(v)
      decreases r
    {
      r := r.inner;
    }
  }

  function AsBytes(v: Cbor): Option<Bytes> {
    if v.Blob? then Some(v.bytes) else None
  }

  /** `decode_array`: the message array, whose third element is the payload. */
  function DecodeArray(v: Cbor, tag: Option<U64>): Reply<Message> {
    if !v.Array? then Faulty(NotAnArray)
    else if |v.items| < 3 then Faulty(TooShort)
    else Done(Message(tag, AsBytes(v.items[2]), if |v.items| > 3 then AsBytes(v.items[3]) else None))
  }

  /** `decode_value`: a message behind self-describe and CWT tags. */
  function DecodeValue(v: Cbor, outer: Option<U64>): Reply<Message>
    decreases Size(v)
  {
    var value := Strip(v);
    if value.Tag? && value.tag == CWT_TAG then
      match DecodeValue(value.inner, Some(CWT_TAG))
      case Done(decoded) =>
        Done(if decoded.tag.None? || outer == Some(CWT_TAG) then decoded.(tag := Some(CWT_TAG)) else decoded)
      case Faulty(fault) => Faulty(fault)
    else if value.Tag? then DecodeArray(value.inner, Some(value.tag))
    else DecodeArray(value, outer)
  }

  /** A payload is shorter than the message's value is large. */
  lemma {:induction false} PayloadSmaller(v: Cbor, outer: Option<U64>)
    ensures var r := DecodeValue(v, outer); r.Done? && r.value.payload.Some? ==> |r.value.payload.value| < Size(v)
    decreases Size(v)
  {
    var value := Strip(v);
    if value.Tag? && value.tag == CWT_TAG {
      PayloadSmaller(value.inner, Some(CWT_TAG));
    } else if value.Tag? {
      ThirdSmaller(value.inner, Some(value.tag));
    } else {
      ThirdSmaller(value, outer);
    }
  }

  lemma ThirdSmaller(v: Cbor, tag: Option<U64>)
    ensures var r := DecodeArray(v, tag); r.Done? && r.value.payload.Some? ==> |r.value.payload.value| < Size(v)
  {
    if v.Array? && |v.items| >= 3 {
      PartSmaller(v.items, 2);
    }
  }

  lemma {:induction false} PartSmaller(items: seq<Cbor>, i: nat)
    requires i < |items|
    ensures Size(items[i]) <= SizeAll(items)
  {
    if i > 0 {
      PartSmaller(items[1..], i - 1);
    }
  }

  function CwtTags(n: nat, v: Cbor): Cbor {
    if n == 0 then v else Tag(CWT_TAG, CwtTags(n - 1, v))
  }

  /** The parts of a message behind any number of CWT tags: its payload and signature are its own; it reports its own
      tag behind at most one of them, and the CWT tag otherwise. */
  lemma {:induction false} MessageBehindTags(n: nat, tag: Option<U64>, message: Cbor, outer: Option<U64>)
    requires message.Array? && |message.items| >= 3
    requires tag != Some(CWT_TAG) && tag != Some(SELF_DESCRIBE) && (outer == None || outer == Some(CWT_TAG))
    ensures DecodeValue(CwtTags(n, if tag.Some? then Tag(tag.value, message) else message), outer)
            == Done(Message(
                 if n == 0 then (if tag.Some? then tag else outer)
                 else if n == 1 && outer == None && tag.Some? then tag else Some(CWT_TAG),
                 AsBytes(message.items[2]),
                 if |message.items| > 3 then AsBytes(message.items[3]) else None))
    decreases n
  {
    hide Size;
    if n > 0 {
      MessageBehindTags(n - 1, tag, message, Some(CWT_TAG));
    }
  }

  // ---- Extracting the claims ----

  /** `extract_claims`: the entries of the claims map, through any envelopes. It ends on every input, because a payload
      is smaller than the message it comes from, and the value in it no larger than the payload. */
  function ExtractClaims(v: Cbor): Reply<seq<Entry>>
    decreases Size(v)
  {
    var value := Strip(v);
    if value.Map? then Done(value.entries)
    else if value.Tag? && value.tag == CWT_TAG then ExtractClaims(value.inner)
    else if value.Tag? || value.Array? then
      PayloadSmaller(value, None);
      match DecodeValue(value, None)
      case Faulty(fault) => Faulty(fault)
      case Done(decoded) =>
        if decoded.payload.None? then Faulty(NoPayload) else
          ParsedFits(decoded.payload.value);
          match Parse(decoded.payload.value)
          case Failed(error) => Faulty(Undecodable(error))
          case Got(inner, _) => ExtractClaims(inner)
    else Faulty(NotClaims)
  }

  function ClaimsValue(bytes: Bytes): Reply<seq<Entry>> {
    match Parse(bytes)
    case Failed(error) => Faulty(Undecodable(error))
    case Got(v, _) => ExtractClaims(v)
  }

  // ---- Envelopes ----

  /** One envelope: a self-describe tag, a CWT tag, or a COSE message with or without its own tag, whose payload is the
      encoded inner item and perhaps bytes after it. */
  datatype Layer =
    | SelfDescribed
    | Enveloped
    | Signed(tag: Option<U64>, protected: Cbor, unprotected: Cbor, more: seq<Cbor>, after: Bytes)

  function Around(layer: Layer, inner: Cbor): Cbor {
    match layer
    case SelfDescribed => Tag(SELF_DESCRIBE, inner)
    case Enveloped => Tag(CWT_TAG, inner)
    case Signed(tag, protected, unprotected, more, after) =>
      var message := Array([protected, unprotected, Blob(Encode(inner) + after)] + more);
      if tag.Some? then Tag(tag.value, message) else message
  }

  function Wrap(layers: seq<Layer>, v: Cbor): Cbor {
    if |layers| == 0 then v else Around(layers[0], Wrap(layers[1..], v))
  }

  /** Every item that travels as a payload satisfies `ok`. */
  ghost predicate Payloads(layers: seq<Layer>, v: Cbor, ok: Cbor -> bool) {
    |layers| > 0 ==> (layers[0].Signed? ==> ok(Wrap(layers[1..], v))) && Payloads(layers[1..], v, ok)
  }

  predicate WithinNesting(v: Cbor) {
    Depth(v) <= MAX_NESTING
  }

  lemma ExtractBehindTag(v: Cbor)
    ensures ExtractClaims(Tag(SELF_DESCRIBE, v)) == ExtractClaims(v)
    ensures ExtractClaims(Tag(CWT_TAG, v)) == ExtractClaims(v)
  {
    hide DecodeValue;
  }

  /** The payload of a message is what its claims are looked for in, whatever tag the message has. */
  lemma MessagePayload(message: Cbor, tag: Option<U64>, payload: Bytes)
    requires message.Array? && |message.items| >= 3 && message.items[2] == Blob(payload)
    ensures ExtractClaims(if tag.Some? then Tag(tag.value, message) else message) == ClaimsValue(payload)
  {
    if tag == Some(CWT_TAG) || tag == Some(SELF_DESCRIBE) {
      ExtractBehindTag(message);
      UntaggedPayload(message, payload);
    } else if tag.Some? {
      TaggedPayload(message, tag.value, payload);
    } else {
      UntaggedPayload(message, payload);
    }
    hide ExtractClaims, ClaimsValue, Size;
  }

  lemma UntaggedPayload(message: Cbor, payload: Bytes)
    requires message.Array? && |message.items| >= 3 && message.items[2] == Blob(payload)
    ensures ExtractClaims(message) == ClaimsValue(payload)
  {
    hide Parse, Size;
  }

  lemma TaggedPayload(message: Cbor, tag: U64, payload: Bytes)
    requires message.Array? && |message.items| >= 3 && message.items[2] == Blob(payload)
    requires tag != CWT_TAG && tag != SELF_DESCRIBE
    ensures ExtractClaims(Tag(tag, message)) == ClaimsValue(payload)
  {
    hide Parse, Size;
  }

  lemma PayloadValue(inner: Cbor, after: Bytes)
    requires Addressable(inner)
    ensures ClaimsValue(Encode(inner) + after)
            == if WithinNesting(inner) then ExtractClaims(inner) else Faulty(Undecodable(NestingLimit))
  {
    hide Decoder, ExtractClaims, Encode, Depth, Addressable;
    DecodeOfEncode(inner, after, MAX_NESTING);
  }

  lemma ExtractAround(layer: Layer, inner: Cbor)
    requires layer.Signed? ==> Addressable(inner)
    ensures ExtractClaims(Around(layer, inner))
            == if layer.Signed? && !WithinNesting(inner) then Faulty(Undecodable(NestingLimit))
               else ExtractClaims(inner)
  {
    hide ExtractClaims, Encode, Addressable, WithinNesting, ClaimsValue;
    ExtractBehindTag(inner);
    if layer.Signed? {
      var payload := Encode(inner) + layer.after;
      var message := Array([layer.protected, layer.unprotected, Blob(payload)] + layer.more);
      MessagePayload(message, layer.tag, payload);
      PayloadValue(inner, layer.after);
    }
  }

  /** Any stack of envelopes around a claims map gives the same claims as the bare map, as long as every payload is
      nested within the decoder's limit; otherwise the outermost payload that is not ends the search. */
  lemma {:induction false} Unwrap(layers: seq<Layer>, entries: seq<Entry>)
    requires Payloads(layers, Map(entries), Addressable)
    ensures ExtractClaims(Wrap(layers, Map(entries)))
            == if Payloads(layers, Map(entries), WithinNesting) then Done(entries)
               else Faulty(Undecodable(NestingLimit))
  {
    hide ExtractClaims, Around, Addressable, WithinNesting;
    if |layers| > 0 {
      Unwrap(layers[1..], entries);
      ExtractAround(layers[0], Wrap(layers[1..], Map(entries)));
    } else {
      BareClaims(entries);
    }
  }

  /** What is looked through, and what is refused: self-describe tags (55799) and CWT tags (61) are looked through; any
      other tag must be on a message, which is an array with a byte string in third place; and a bare value must be a
      message or a map. */
  lemma EnvelopeForms(v: Cbor, tag: U64)
    ensures ExtractClaims(Tag(55_799, v)) == ExtractClaims(v)
    ensures ExtractClaims(Tag(61, v)) == ExtractClaims(v)
    ensures tag != 55_799 && tag != 61 && !v.Array? ==> ExtractClaims(Tag(tag, v)) == Faulty(NotAnArray)
    ensures v.Array? && |v.items| < 3 ==> ExtractClaims(v) == ExtractClaims(Tag(tag, v)) == Faulty(TooShort)
    ensures v.Array? && |v.items| >= 3 && !v.items[2].Blob? ==>
              ExtractClaims(v) == ExtractClaims(Tag(tag, v)) == Faulty(NoPayload)
    ensures !v.Array? && !v.Map? && !v.Tag? ==> ExtractClaims(v) == Faulty(NotClaims)
  {
    ExtractBehindTag(v);
    hide Size, Parse;
  }

  lemma BareClaims(entries: seq<Entry>)
    ensures ExtractClaims(Map(entries)) == Done(entries)
  {
  }

  // ---- The registered claims ----

  /** A claims set. Texts are kept as the values they are rendered from; `extra` is the JSON object of the other
      entries, None when there are none. */
  datatype Claims = Claims(
    iss: Option<Cbor>, sub: Option<Cbor>, aud: Option<Cbor>,
    exp: Option<I64>, nbf: Option<I64>, iat: Option<I64>,
    cti: Option<Bytes>, extra: Option<Json>)

  const NO_CLAIMS := Claims(None, None, None, None, None, None, None, None)

  /** What the platform provides: `f as i64`, JSON rendering, and the text of a claim key that is not a text. */
  datatype Printer = Printer(trunc: F64 -> I64, render: Render, keyText: Cbor -> Utf8) {
    function Key(k: Cbor): Utf8 {
      if k.Text? then k.s else keyText(k)
    }
  }

  /** `as_text` renders texts, byte strings and integers. */
  function AsText(v: Cbor): Option<Cbor> {
    if v.Text? || v.Blob? || v.Integer? then Some(v) else None
  }

  /** `as_seconds`; `trunc` is the platform's `f as i64`. */
  function AsSeconds(v: Cbor, trunc: F64 -> I64): Option<I64> {
    match v
    case Integer(n) => if IsI64(n) then Some(n) else None
    case Float(f) => Some(trunc(f))
    case Tag(_, inner) => AsSeconds(inner, trunc)
    case _ => None
  }

  predicate Registered(key: Cbor) {
    key.Integer? && 1 <= key.n <= 7
  }

  /** The value of the last entry under the integer key `k`. */
  function LastUnder(entries: seq<Entry>, k: CborInt): Option<Cbor> {
    if |entries| == 0 then None
    else if entries[|entries| - 1].key == Integer(k) then Some(entries[|entries| - 1].val)
    else LastUnder(entries[..|entries| - 1], k)
  }

  /** The object the entries under other keys are inserted into, one after the other. */
  function ExtraOf(printer: Printer, entries: seq<Entry>): seq<Member> {
    if |entries| == 0 then []
    else
      var last, rest := entries[|entries| - 1], ExtraOf(printer, entries[..|entries| - 1]);
      if Registered(last.key) then rest else Insert(rest, printer.Key(last.key), ToJson(printer.render, last.val))
  }

  /** Entry `i` is the last of the unregistered ones that print as the member's key, and the member renders it. */
  ghost predicate PrintedBy(printer: Printer, entries: seq<Entry>, m: Member, i: nat) {
    && i < |entries| && !Registered(entries[i].key) && printer.Key(entries[i].key) == m.key
    && m.val == ToJson(printer.render, entries[i].val)
    && forall j | i < j < |entries| :: Registered(entries[j].key) || printer.Key(entries[j].key) != m.key
  }

  ghost predicate Prints(printer: Printer, entries: seq<Entry>, m: Member) {
    exists i: nat :: PrintedBy(printer, entries, m, i)
  }

  lemma PrintsMore(printer: Printer, rest: seq<Entry>, last: Entry, m: Member)
    ensures Prints(printer, rest + [last], m)
            <==> if !Registered(last.key) && printer.Key(last.key) == m.key
                 then m.val == ToJson(printer.render, last.val) else Prints(printer, rest, m)
  {
    hide ToJson, Registered;
    var all := rest + [last];
    assert all[|rest|] == last;
    if !Registered(last.key) && printer.Key(last.key) == m.key {
      if m.val == ToJson(printer.render, last.val) {
        assert PrintedBy(printer, all, m, |rest|);
      }
    } else {
      if i: nat :| PrintedBy(printer, rest, m, i) {
        assert PrintedBy(printer, all, m, i);
      }
      if i: nat :| PrintedBy(printer, all, m, i) {
        assert i < |rest|;
        assert forall j | i < j < |rest| :: all[j] == rest[j];
        assert PrintedBy(printer, rest, m, i);
      }
    }
  }

  /** The extra claims are ordered by key, and hold for every key the last entry that prints as it, and nothing else. */
  lemma {:induction false} ExtraHolds(printer: Printer, entries: seq<Entry>)
    ensures Ordered(ExtraOf(printer, entries))
    ensures forall m :: m in ExtraOf(printer, entries) <==> Prints(printer, entries, m)
    decreases |entries|
  {
    hide ToJson, Insert, Ordered, Registered, PrintedBy;
    if |entries| == 0 {
      EmptyOrdered();
      NothingPrinted(printer);
      assert entries == [];
    } else {
      var last, rest := entries[|entries| - 1], entries[..|entries| - 1];
      assert entries == rest + [last];
      ExtraHolds(printer, rest);
      InsertOrdered(ExtraOf(printer, rest), printer.Key(last.key), ToJson(printer.render, last.val));
      forall m
        ensures m in ExtraOf(printer, entries) <==> Prints(printer, entries, m)
      {
        PrintsMore(printer, rest, last, m);
      }
    }
  }

  lemma NothingPrinted(printer: Printer)
    ensures forall m :: !Prints(printer, [], m)
  {
  }

  function Then<T>(v: Option<Cbor>, f: Cbor -> Option<T>): Option<T> {
    if v.Some? then f(v.value) else None
  }

  /** The claims the entries stand for: of several entries under one key, the last one counts, even when its value
      does not convert. */
  function ClaimsOf(entries: seq<Entry>, printer: Printer): Claims {
    var seconds := (v: Cbor) => AsSeconds(v, printer.trunc);
    var extra := ExtraOf(printer, entries);
    Claims(
      Then(LastUnder(entries, 1), AsText), Then(LastUnder(entries, 2), AsText), Then(LastUnder(entries, 3), AsText),
      Then(LastUnder(entries, 4), seconds), Then(LastUnder(entries, 5), seconds), Then(LastUnder(entries, 6), seconds),
      Then(LastUnder(entries, 7), AsBytes), if extra == [] then None else Some(JsonObject(extra)))
  }

  /** Entry `i` is the last under the integer key `k`. */
  ghost predicate LastAt(entries: seq<Entry>, k: CborInt, i: nat) {
    && i < |entries| && entries[i].key == Integer(k)
    && forall j | i < j < |entries| :: entries[j].key != Integer(k)
  }

  /** The claim is the conversion of the last entry under the key `k`, and absent when there is none. */
  ghost predicate IsClaim<T>(entries: seq<Entry>, k: CborInt, convert: Cbor -> Option<T>, claim: Option<T>) {
    && (forall i: nat | LastAt(entries, k, i) :: claim == convert(entries[i].val))
    && ((forall i | 0 <= i < |entries| :: entries[i].key != Integer(k)) ==> claim == None)
  }

  /** The claims set of the entries, claim by claim: keys 1 to 7 are registered (section 4 of RFC 8392). */
  ghost predicate IsClaimsSet(entries: seq<Entry>, printer: Printer, claims: Claims) {
    var seconds := (v: Cbor) => AsSeconds(v, printer.trunc);
    && IsClaim(entries, 1, AsText, claims.iss)
    && IsClaim(entries, 2, AsText, claims.sub)
    && IsClaim(entries, 3, AsText, claims.aud)
    && IsClaim(entries, 4, seconds, claims.exp)
    && IsClaim(entries, 5, seconds, claims.nbf)
    && IsClaim(entries, 6, seconds, claims.iat)
    && IsClaim(entries, 7, AsBytes, claims.cti)
    && (claims.extra == None <==> forall m :: !Prints(printer, entries, m))
    && (claims.extra.Some? ==> claims.extra.value.JsonObject? && Ordered(claims.extra.value.members)
                               && forall m :: m in claims.extra.value.members <==> Prints(printer, entries, m))
  }

  lemma IsClaimMore<T>(rest: seq<Entry>, last: Entry, k: CborInt, convert: Cbor -> Option<T>, claim: Option<T>)
    requires IsClaim(rest, k, convert, claim)
    ensures IsClaim(rest + [last], k, convert, if last.key == Integer(k) then convert(last.val) else claim)
  {
    var all := rest + [last];
    assert all[|rest|] == last;
    assert forall j | 0 <= j < |rest| :: all[j] == rest[j];
    forall i: nat | LastAt(all, k, i)
      ensures (if last.key == Integer(k) then convert(last.val) else claim) == convert(all[i].val)
    {
      if i < |rest| {
        assert LastAt(rest, k, i);
      }
    }
  }

  lemma {:induction false} LastUnderIs<T>(entries: seq<Entry>, k: CborInt, convert: Cbor -> Option<T>)
    ensures IsClaim(entries, k, convert, Then(LastUnder(entries, k), convert))
    decreases |entries|
  {
    hide IsClaim;
    if |entries| == 0 {
      NothingClaimed(k, convert);
      assert entries == [];
    } else {
      var last, rest := entries[|entries| - 1], entries[..|entries| - 1];
      assert entries == rest + [last];
      LastUnderIs(rest, k, convert);
      IsClaimMore(rest, last, k, convert, Then(LastUnder(rest, k), convert));
    }
  }

  lemma NothingClaimed<T>(k: CborInt, convert: Cbor -> Option<T>)
    ensures IsClaim([], k, convert, None)
  {
  }

  lemma ClaimsOfIs(entries: seq<Entry>, printer: Printer)
    ensures IsClaimsSet(entries, printer, ClaimsOf(entries, printer))
  {
    hide LastUnder, IsClaim, AsSeconds, ExtraOf, Prints, Ordered, Then;
    var seconds := (v: Cbor) => AsSeconds(v, printer.trunc);
    LastUnderIs(entries, 1, AsText);
    LastUnderIs(entries, 2, AsText);
    LastUnderIs(entries, 3, AsText);
    LastUnderIs(entries, 4, seconds);
    LastUnderIs(entries, 5, seconds);
    LastUnderIs(entries, 6, seconds);
    LastUnderIs(entries, 7, AsBytes);
    ExtraHolds(printer, entries);
    var extra := ExtraOf(printer, entries);
    if extra != [] {
      assert extra[0] in extra;
    }
  }

  /** What converts into a claim: texts, byte strings and integers are rendered; a time is an integer of 64 bits or a
      float cut to one, behind any tags; an identifier is a byte string. A text key prints as it is. */
  lemma ConversionForms(tags: seq<U64>, v: Cbor, printer: Printer)
    requires !v.Tag?
    ensures AsSeconds(Tagged(tags, v), printer.trunc)
            == match v
               case Integer(n) =>
                 if -9_223_372_036_854_775_808 <= n <= 9_223_372_036_854_775_807 then Some(n) else None
               case Float(f) => Some(printer.trunc(f))
               case _ => None
    ensures AsText(Tagged(tags, v)) == if tags == [] && (v.Text? || v.Blob? || v.Integer?) then Some(v) else None
    ensures AsBytes(Tagged(tags, v)) == if tags == [] && v.Blob? then Some(v.bytes) else None
    ensures printer.Key(v) == if v.Text? then v.s else printer.keyText(v)
    decreases |tags|
  {
    if |tags| > 0 {
      ConversionForms(tags[1..], v, printer);
    }
  }

  /** `cwt_claims`: the loop over the entries, assigning each registered claim and inserting the others. */
  method CwtClaims(bytes: Bytes, printer: Printer) returns (r: Reply<Claims>)
    ensures r == match ClaimsValue(bytes)
                 case Done(entries) => Done(ClaimsOf(entries, printer))
                 case Faulty(fault) => Faulty(fault)
    ensures r.Done? ==> ClaimsValue(bytes).Done? && IsClaimsSet(ClaimsValue(bytes).value, printer, r.value)
  {
    hide AsSeconds, Registered, ClaimsValue, ToJson, Insert, IsClaimsSet;
    var found := ClaimsValue(bytes);
    if found.Faulty? {
      return Faulty(found.fault);
    }
    var entries := found.value;
    var claims := NO_CLAIMS;
    var extra: seq<Member> := [];
    for i := 0 to |entries|
      invariant extra == ExtraOf(printer, entries[..i])
      invariant claims == ClaimsOf(entries[..i], printer).(extra := None)
    {
      var Entry(k, v) := entries[i];
      assert entries[..i + 1][..i] == entries[..i];
      RegisteredKey(k);
      if k == Integer(1) {
        claims := claims.(iss := AsText(v));
      } else if k == Integer(2) {
        claims := claims.(sub := AsText(v));
      } else if k == Integer(3) {
        claims := claims.(aud := AsText(v));
      } else if k == Integer(4) {
        claims := claims.(exp := AsSeconds(v, printer.trunc));
      } else if k == Integer(5) {
        claims := claims.(nbf := AsSeconds(v, printer.trunc));
      } else if k == Integer(6) {
        claims := claims.(iat := AsSeconds(v, printer.trunc));
      } else if k == Integer(7) {
        claims := claims.(cti := AsBytes(v));
      } else {
        extra := Insert(extra, printer.Key(k), ToJson(printer.render, v));
      }
    }
    assert entries[..|entries|] == entries;
    if extra != [] {
      claims := claims.(extra := Some(JsonObject(extra)));
    }
    ClaimsOfIs(entries, printer);
    return Done(claims);
  }

  lemma RegisteredKey(k: Cbor)
    ensures Registered(k) <==> k in [Integer(1), Integer(2), Integer(3), Integer(4), Integer(5), Integer(6), Integer(7)]
  {
  }

  /** Section 6 of RFC 8392: the claims of an encoded stack of envelopes are those of the bare claims map. */
  lemma EnvelopeClaims(layers: seq<Layer>, entries: seq<Entry>, after: Bytes)
    requires Addressable(Wrap(layers, Map(entries))) && WithinNesting(Wrap(layers, Map(entries)))
    requires Payloads(layers, Map(entries), Addressable) && Payloads(layers, Map(entries), WithinNesting)
    requires Addressable(Map(entries)) && WithinNesting(Map(entries))
    ensures ClaimsValue(Encode(Wrap(layers, Map(entries))) + after) == ClaimsValue(Encode(Map(entries)))
  {
    hide Payloads, Addressable, Wrap, ClaimsValue, ExtractClaims, Encode, WithinNesting;
    Unwrap(layers, entries);
    BareClaims(entries);
    PayloadValue(Wrap(layers, Map(entries)), after);
    PayloadValue(Map(entries), []);
    assert Encode(Map(entries)) + [] == Encode(Map(entries));
  }
}
