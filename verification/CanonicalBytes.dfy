/** `cbor.canonical`: bytes in, deterministic bytes out. */
module CanonicalBytes {
  import opened Base
  import opened Values
  import opened Framing
  import opened ItemCodec
  import opened Canonical

  datatype Strict = Whole(v: Cbor) | Trailing | Bad(error: DecodeError)

  /** `parse_strict`: one item that is the whole input. */
  function ParseStrict(bs: Bytes): Strict {
    match Parse(bs)
    case Failed(error) => Bad(error)
    case Got(v, rest) => if rest == [] then Whole(v) else Trailing
  }

  /** `canonical`: decode, reorder, encode. */
  function CanonicalOf(bs: Bytes, mode: Canon): Option<Bytes> {
    match ParseStrict(bs)
    case Whole(v) => Some(Encode(Canonicalize(v, mode)))
    case _ => None
  }

  // ---- What a decoder yields ----

  /** Every value the parser yields satisfies `ok`. */
  ghost predicate Yields<T(!new)>(p: Parser<T>, ok: T -> bool) {
    forall bs | p(bs).Got? :: ok(p(bs).value)
  }

  lemma BindYields<T(!new), U(!new)>(p: Parser<T>, f: T -> Parser<U>, first: T -> bool, ok: U -> bool)
    requires Yields(p, first) && forall v | first(v) :: Yields(f(v), ok)
    ensures Yields(Bind(p, f), ok)
  {
    forall bs | Bind(p, f)(bs).Got?
      ensures ok(Bind(p, f)(bs).value)
    {
      assert Yields(f(p(bs).value), ok);
    }
  }

  /** `n` items, each satisfying `one`. */
  lemma {:induction false} RepeatYields<T(!new)>(p: Parser<T>, n: nat, one: T -> bool, all: seq<T> -> bool)
    requires Yields(p, one)
    requires all([]) && forall v, vs | one(v) && all(vs) :: all([v] + vs)
    ensures Yields(Repeat(p, n), vs => all(vs) && |vs| == n)
  {
    if n > 0 {
      var tail := Repeat(p, n - 1);
      RepeatYields(p, n - 1, one, all);
      forall v: T | one(v)
        ensures Yields(Bind(tail, (vs: seq<T>) => Return([v] + vs)), vs => all(vs) && |vs| == n)
      {
        BindYields(tail, (vs: seq<T>) => Return([v] + vs), vs => all(vs) && |vs| == n - 1,
                   vs => all(vs) && |vs| == n);
      }
      BindYields(p, (v: T) => Bind(tail, (vs: seq<T>) => Return([v] + vs)), one, vs => all(vs) && |vs| == n);
    }
  }

  predicate Within(limit: nat, v: Cbor) {
    Depth(v) <= limit && Addressable(v)
  }

  predicate AllWithin(limit: nat, items: seq<Cbor>) {
    DepthAll(items) <= limit && AddressableAll(items)
  }

  predicate EntryWithin(limit: nat, e: Entry) {
    Within(limit, e.key) && Within(limit, e.val)
  }

  predicate EntriesWithin(limit: nat, entries: seq<Entry>) {
    DepthEntries(entries) <= limit && AddressableEntries(entries)
  }

  /** Whatever is decoded is nested within the limit, and its lengths fit the machine. */
  lemma {:induction false} DecoderWithin(limit: nat)
    ensures Yields(Decoder(limit), v => Within(limit, v))
    decreases limit, 1
  {
    forall h: HeadInfo
      ensures Yields(Body(h, limit), v => Within(limit, v))
    {
      BodyWithin(h, limit);
    }
    BindYields(HeadParser(), (h: HeadInfo) => Body(h, limit), h => true, v => Within(limit, v));
  }

  lemma {:induction false} BodyWithin(h: HeadInfo, limit: nat)
    ensures Yields(Body(h, limit), v => Within(limit, v))
    decreases limit, 0
  {
    if h.major == 2 || h.major == 3 {
      BindYields(Take(h.arg), (b: Bytes) => Return(Blob(b)), b => |b| == h.arg, v => Within(limit, v));
      BindYields(Take(h.arg), (b: Bytes) => TextOf(b), b => |b| == h.arg, v => Within(limit, v));
    } else if 4 <= h.major < 7 && limit > 0 {
      DecoderWithin(limit - 1);
      NestedWithin(h, Decoder(limit - 1), limit - 1);
    }
  }

  lemma NestedWithin(h: HeadInfo, item: Parser<Cbor>, limit: nat)
    requires Yields(item, v => Within(limit, v))
    ensures Yields(Nested(h, item), v => Within(limit + 1, v))
  {
    if h.major == 4 {
      ItemsJoin(limit);
      RepeatYields(item, h.arg, v => Within(limit, v), items => AllWithin(limit, items));
      BindYields(Repeat(item, h.arg), (items: seq<Cbor>) => Return(Array(items)),
                 items => AllWithin(limit, items) && |items| == h.arg, v => Within(limit + 1, v));
    } else if h.major == 5 {
      EntryYields(item, limit);
      EntriesJoin(limit);
      RepeatYields(EntryParser(item), h.arg, e => EntryWithin(limit, e), entries => EntriesWithin(limit, entries));
      BindYields(Repeat(EntryParser(item), h.arg), (entries: seq<Entry>) => Return(Map(entries)),
                 entries => EntriesWithin(limit, entries) && |entries| == h.arg, v => Within(limit + 1, v));
    } else {
      BindYields(item, (inner: Cbor) => Return(Tag(h.arg, inner)), v => Within(limit, v), v => Within(limit + 1, v));
    }
  }

  lemma ItemsJoin(limit: nat)
    ensures AllWithin(limit, [])
    ensures forall v, vs | Within(limit, v) && AllWithin(limit, vs) :: AllWithin(limit, [v] + vs)
  {
    forall v: Cbor, vs: seq<Cbor> | Within(limit, v) && AllWithin(limit, vs)
      ensures AllWithin(limit, [v] + vs)
    {
      assert ([v] + vs)[1..] == vs;
    }
  }

  lemma EntriesJoin(limit: nat)
    ensures EntriesWithin(limit, [])
    ensures forall e, es | EntryWithin(limit, e) && EntriesWithin(limit, es) :: EntriesWithin(limit, [e] + es)
  {
    forall e: Entry, es: seq<Entry> | EntryWithin(limit, e) && EntriesWithin(limit, es)
      ensures EntriesWithin(limit, [e] + es)
    {
      assert ([e] + es)[1..] == es;
    }
  }

  lemma EntryYields(item: Parser<Cbor>, limit: nat)
    requires Yields(item, v => Within(limit, v))
    ensures Yields(EntryParser(item), e => EntryWithin(limit, e))
  {
    forall key: Cbor | Within(limit, key)
      ensures Yields(ValueParser(item, key), e => EntryWithin(limit, e))
    {
      BindYields(item, (val: Cbor) => Return(Entry(key, val)), v => Within(limit, v), e => EntryWithin(limit, e));
    }
    BindYields(item, (key: Cbor) => ValueParser(item, key), v => Within(limit, v), e => EntryWithin(limit, e));
  }

  // ---- Reordering keeps depth and lengths ----

  lemma EntriesFirst(e: Entry, es: seq<Entry>)
    ensures DepthEntries([e] + es) == Max(Max(Depth(e.key), Depth(e.val)), DepthEntries(es))
    ensures AddressableEntries([e] + es) <==> Addressable(e.key) && Addressable(e.val) && AddressableEntries(es)
  {
    assert ([e] + es)[1..] == es;
  }

  /** Any entry may be counted first. */
  lemma {:induction false} EntriesTaken(es: seq<Entry>, j: nat)
    requires j < |es|
    ensures DepthEntries(es) == Max(Max(Depth(es[j].key), Depth(es[j].val)), DepthEntries(Without(es, j)))
    ensures AddressableEntries(es)
            <==> Addressable(es[j].key) && Addressable(es[j].val) && AddressableEntries(Without(es, j))
  {
    hide Depth, Addressable, DepthEntries, AddressableEntries;
    var rest := es[1..];
    assert es == [es[0]] + rest;
    EntriesFirst(es[0], rest);
    if j == 0 {
      assert Without(es, 0) == rest;
    } else {
      EntriesTaken(rest, j - 1);
      assert Without(es, j) == [es[0]] + Without(rest, j - 1);
      EntriesFirst(es[0], Without(rest, j - 1));
    }
  }

  /** The order of map entries changes neither how deep a value is nested nor its lengths. */
  lemma {:induction false} ReorderedKeeps(v: Cbor, w: Cbor)
    requires Reordered(v, w)
    ensures Depth(w) == Depth(v) && Addressable(w) == Addressable(v)
    decreases v, 1
  {
    hide DepthEntries, AddressableEntries;
    match v
    case Array(items) => ItemsKeep(items, w.items);
    case Map(entries) => EntriesKeep(entries, w.entries);
    case Tag(_, inner) => ReorderedKeeps(inner, w.inner);
    case _ =>
  }

  lemma {:induction false} ItemsKeep(xs: seq<Cbor>, ys: seq<Cbor>)
    requires ReorderedAll(xs, ys)
    ensures DepthAll(ys) == DepthAll(xs) && AddressableAll(ys) == AddressableAll(xs)
    decreases xs, 0
  {
    if |xs| > 0 {
      ReorderedKeeps(xs[0], ys[0]);
      ItemsKeep(xs[1..], ys[1..]);
    }
  }

  lemma {:induction false} EntriesKeep(xs: seq<Entry>, ys: seq<Entry>)
    requires ReorderedEntries(xs, ys)
    ensures DepthEntries(ys) == DepthEntries(xs) && AddressableEntries(ys) == AddressableEntries(xs)
    decreases xs, 0
  {
    hide Depth, Addressable;
    if |xs| > 0 {
      var j :| 0 <= j < |ys| && ReorderedEntry(xs[0], ys[j]) && ReorderedEntries(xs[1..], Without(ys, j));
      assert xs[0].key < xs[0] && xs[0].val < xs[0];
      ReorderedKeeps(xs[0].key, ys[j].key);
      ReorderedKeeps(xs[0].val, ys[j].val);
      EntriesKeep(xs[1..], Without(ys, j));
      EntriesTaken(ys, j);
    }
  }

  /** So canonical ordering does not either. */
  lemma CanonKeeps(v: Cbor, mode: Canon)
    ensures Depth(Canonicalize(v, mode)) == Depth(v) && Addressable(Canonicalize(v, mode)) == Addressable(v)
  {
    hide *;
    CanonReorders(v, mode);
    ReorderedKeeps(v, Canonicalize(v, mode));
  }

  // ---- The function on bytes ----

  lemma ParsedWithin(bs: Bytes)
    ensures ParseStrict(bs).Whole? ==> Within(MAX_NESTING, ParseStrict(bs).v)
  {
    hide Depth, Addressable, Decoder;
    DecoderWithin(MAX_NESTING);
  }

  /** An encoding decodes strictly to its value. */
  lemma StrictOfEncode(v: Cbor)
    requires Within(MAX_NESTING, v)
    ensures ParseStrict(Encode(v)) == Whole(v)
  {
    hide Decoder, Encode;
    DecodeOfEncode(v, [], MAX_NESTING);
    assert Encode(v) + [] == Encode(v);
  }

  /** The strict verdict on an encoded value: whole when nothing follows it and it is nested at most 64 levels deep,
      trailing when something does, and bad when it is deeper. Any other failure of the decoder is passed on. */
  lemma StrictForms(v: Cbor, rest: Bytes, bs: Bytes, error: DecodeError)
    requires Addressable(v)
    ensures ParseStrict(Encode(v) + rest)
            == if Depth(v) > 64 then Bad(NestingLimit) else if rest == [] then Whole(v) else Trailing
    ensures ParseStrict(bs) == Bad(error) <==> Parse(bs) == Failed(error)
  {
    hide Decoder, Encode;
    DecodeOfEncode(v, rest, MAX_NESTING);
  }

  /** What `canonical` gives for any input it accepts: bytes that decode to the canonical form of the input's value, and
      that it does not change any more. It accepts exactly the inputs that are one item. */
  lemma CanonicalSettles(bs: Bytes, mode: Canon)
    ensures CanonicalOf(bs, mode).Some? <==> ParseStrict(bs).Whole?
    ensures CanonicalOf(bs, mode).Some? ==>
              var out := CanonicalOf(bs, mode).value;
              && ParseStrict(out) == Whole(Canonicalize(ParseStrict(bs).v, mode))
              && CanonicalOf(out, mode) == Some(out)
  {
    hide Parse, Encode, Canonicalize, Depth, Addressable;
    if ParseStrict(bs).Whole? {
      var v := ParseStrict(bs).v;
      ParsedWithin(bs);
      CanonKeeps(v, mode);
      StrictOfEncode(Canonicalize(v, mode));
      CanonIdempotent(v, mode);
    }
  }

  /** Two inputs have the same canonical bytes exactly when their values have the same canonical form; so inputs whose
      values differ in the order of map entries only, without conflicting keys, do. */
  lemma CanonicalBytesAgree(a: Bytes, b: Bytes, mode: Canon)
    requires ParseStrict(a).Whole? && ParseStrict(b).Whole?
    ensures CanonicalOf(a, mode) == CanonicalOf(b, mode)
            <==> Canonicalize(ParseStrict(a).v, mode) == Canonicalize(ParseStrict(b).v, mode)
    ensures Reordered(ParseStrict(a).v, ParseStrict(b).v) && NoConflict(ParseStrict(a).v, mode) ==>
              CanonicalOf(a, mode) == CanonicalOf(b, mode)
  {
    hide Parse, Encode, Canonicalize, Depth, Addressable, Reordered, NoConflict;
    CanonicalSettles(a, mode);
    CanonicalSettles(b, mode);
    var v, w := ParseStrict(a).v, ParseStrict(b).v;
    if Reordered(v, w) && NoConflict(v, mode) {
      CanonDeterministic(v, w, mode);
    }
  }
}
