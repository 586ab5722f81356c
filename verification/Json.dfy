/** The JSON bridge: JSON to deterministic CBOR, and CBOR values as JSON. */
module Json {
  import opened Base
  import opened Values
  import opened ItemCodec
  import opened Canonical
  import opened CanonicalBytes

  /** A JSON number as its library holds it: an unsigned or a negative integer of 64 bits, or a double. */
  datatype Number = PosInt(u: U64) | NegInt(i: I64) | Real(f: F64)

  datatype Json =
    | JsonNull
    | JsonBool(b: bool)
    | JsonNumber(number: Number)
    | JsonString(s: Utf8)
    | JsonArray(items: seq<Json>)
    | JsonObject(members: seq<Member>)

  datatype Member = Member(key: Utf8, val: Json)

  /** What the platform renders as text, and which doubles are finite. */
  datatype Render = Render(
    finite: F64 -> bool,
    decimal: int -> Utf8,        // an integer beyond 64 bits
    base64: Bytes -> Utf8,       // `b64url`
    keyText: Cbor -> Utf8        // a map key that is not a text
  )

  // ---- Objects: members in key order ----

  predicate Before(a: Utf8, b: Utf8) {
    LexLeq(a, b) && a != b
  }

  /** Insert into an object, which is ordered by key; a key that is there is given the new value. */
  function Insert(members: seq<Member>, key: Utf8, val: Json): (r: seq<Member>)
    ensures |members| <= |r| <= |members| + 1
  {
    if |members| == 0 then [Member(key, val)]
    else if members[0].key == key then [Member(key, val)] + members[1..]
    else if Before(key, members[0].key) then [Member(key, val)] + members
    else [members[0]] + Insert(members[1..], key, val)
  }

  ghost predicate Ordered(members: seq<Member>) {
    forall i, j | 0 <= i < j < |members| :: Before(members[i].key, members[j].key)
  }

  // ---- CBOR to JSON ----

  function IntToJson(render: Render, n: int): Json {
    if 0 <= n < TWO_64 then JsonNumber(PosInt(n))
    else if IsI64(n) then JsonNumber(NegInt(n))
    else JsonString(render.decimal(n))
  }

  function JsonKey(render: Render, k: Cbor): Utf8 {
    if k.Text? then k.s else render.keyText(k)
  }

  /** `to_json_value`: tags are transparent, and the entries of a map are inserted one after the other. */
  function ToJson(render: Render, v: Cbor): Json
    decreases v, 0
  {
    match v
    case Null => JsonNull
    case Bool(b) => JsonBool(b)
    case Integer(n) => IntToJson(render, n)
    case Float(f) => if render.finite(f) then JsonNumber(Real(f)) else JsonNull
    case Text(s) => JsonString(s)
    case Blob(b) => JsonString(render.base64(b))
    case Array(items) => JsonArray(AllToJson(render, items))
    case Map(entries) => JsonObject(ObjectOf(render, entries))
    case Tag(_, inner) => ToJson(render, inner)
  }

  function AllToJson(render: Render, items: seq<Cbor>): (r: seq<Json>)
    ensures |r| == |items|
    ensures forall i | 0 <= i < |items| :: r[i] == ToJson(render, items[i])
    decreases items, 0
  {
    if |items| == 0 then [] else [ToJson(render, items[0])] + AllToJson(render, items[1..])
  }

  function ObjectOf(render: Render, entries: seq<Entry>): seq<Member>
    decreases entries, 0
  {
    if |entries| == 0 then [] else
      var last := entries[|entries| - 1];
      assert last.val < last;
      Insert(ObjectOf(render, entries[..|entries| - 1]), JsonKey(render, last.key), ToJson(render, last.val))
  }

  /** The map arm: inserting in a loop. */
  method BuildObject(render: Render, entries: seq<Entry>) returns (obj: seq<Member>)
    ensures obj == ObjectOf(render, entries)
  {
    obj := [];
    for i := 0 to |entries|
      invariant obj == ObjectOf(render, entries[..i])
    {
      assert entries[..i + 1][..i] == entries[..i];
      obj := Insert(obj, JsonKey(render, entries[i].key), ToJson(render, entries[i].val));
    }
    assert entries[..|entries|] == entries;
  }

  // ---- JSON to CBOR ----

  function ToCbor(j: Json): Cbor
    decreases j, 0
  {
    match j
    case JsonNull => Null
    case JsonBool(b) => Bool(b)
    case JsonNumber(PosInt(u)) => Integer(u)
    case JsonNumber(NegInt(i)) => Integer(i)
    case JsonNumber(Real(f)) => Float(f)
    case JsonString(s) => Text(s)
    case JsonArray(items) => Array(AllToCbor(items))
    case JsonObject(members) => Map(MembersToCbor(members))
  }

  function AllToCbor(items: seq<Json>): (r: seq<Cbor>)
    ensures |r| == |items|
    ensures forall i | 0 <= i < |items| :: r[i] == ToCbor(items[i])
    decreases items, 0
  {
    if |items| == 0 then [] else [ToCbor(items[0])] + AllToCbor(items[1..])
  }

  function MembersToCbor(members: seq<Member>): (r: seq<Entry>)
    ensures |r| == |members|
    ensures forall i | 0 <= i < |members| :: r[i] == Entry(Text(members[i].key), ToCbor(members[i].val))
    decreases members, 0
  {
    if |members| == 0 then [] else
      assert members[0].val < members[0];
      [Entry(Text(members[0].key), ToCbor(members[0].val))] + MembersToCbor(members[1..])
  }

  /** A JSON tree a parser builds: objects are ordered by key without duplicates, negative integers are negative, and
      doubles are finite. */
  ghost predicate Parsed(render: Render, j: Json)
    decreases j, 0
  {
    match j
    case JsonNumber(NegInt(i)) => i < 0
    case JsonNumber(Real(f)) => render.finite(f)
    case JsonArray(items) => forall x | x in items :: Parsed(render, x)
    case JsonObject(members) => Ordered(members) && forall m | m in members :: ParsedMember(render, m)
    case _ => true
  }

  ghost predicate ParsedMember(render: Render, m: Member)
    decreases m, 0
  {
    Parsed(render, m.val)
  }

  // ---- Any order of insertion gives the same object ----

  lemma BeforeTotal(a: Utf8, b: Utf8)
    ensures Before(a, b) || a == b || Before(b, a)
    ensures !(Before(a, b) && Before(b, a))
  {
    LexTotal(a, b);
    if LexLeq(a, b) && LexLeq(b, a) {
      LexAntisymmetric(a, b);
    }
  }

  lemma BeforeTransitive(a: Utf8, b: Utf8, c: Utf8)
    requires Before(a, b) && Before(b, c)
    ensures Before(a, c)
  {
    LexTransitive(a, b, c);
    BeforeTotal(a, b);
  }

  lemma {:induction false} InsertOrdered(members: seq<Member>, key: Utf8, val: Json)
    requires Ordered(members)
    ensures var r := Insert(members, key, val);
            && Ordered(r)
            && forall m :: m in r <==> m == Member(key, val) || (m in members && m.key != key)
  {
    hide Before;
    if |members| > 0 {
      var first, rest := members[0], members[1..];
      assert members == [first] + rest;
      forall i | 0 <= i < |rest|
        ensures Before(first.key, rest[i].key)
      {
      }
      BeforeTotal(key, first.key);
      if first.key == key {
        NotEqualAfter(first.key, rest);
      } else if Before(key, first.key) {
        forall i | 0 <= i < |members|
          ensures Before(key, members[i].key) && members[i].key != key
        {
          if i > 0 {
            BeforeTransitive(key, first.key, members[i].key);
          }
          BeforeTotal(key, members[i].key);
        }
      } else {
        InsertOrdered(rest, key, val);
        OrderedFrom(first, Insert(rest, key, val));
      }
    }
  }

  lemma NotEqualAfter(key: Utf8, rest: seq<Member>)
    requires forall i | 0 <= i < |rest| :: Before(key, rest[i].key)
    ensures forall m | m in rest :: m.key != key
  {
  }

  lemma OrderedFrom(first: Member, rest: seq<Member>)
    requires Ordered(rest) && forall m | m in rest :: Before(first.key, m.key)
    ensures Ordered([first] + rest)
  {
    hide Before;
  }

  /** Every key is a text, and entries that share one are the same entry. */
  ghost predicate TextKeyed(entries: seq<Entry>) {
    && (forall e | e in entries :: e.key.Text?)
    && (forall x, y | x in entries && y in entries :: x.key == y.key ==> x == y)
  }

  /** The member is the JSON form of an entry. */
  ghost predicate FromEntry(render: Render, entries: seq<Entry>, m: Member) {
    exists e | e in entries :: IsMemberOf(render, e, m)
  }

  ghost predicate IsMemberOf(render: Render, e: Entry, m: Member) {
    m == Member(JsonKey(render, e.key), ToJson(render, e.val))
  }

  lemma {:induction false} ObjectHolds(render: Render, entries: seq<Entry>)
    requires TextKeyed(entries)
    ensures Ordered(ObjectOf(render, entries))
    ensures forall m :: m in ObjectOf(render, entries) <==> FromEntry(render, entries, m)
    decreases |entries|
  {
    hide ToJson, Insert, Ordered;
    if |entries| == 0 {
      assert Ordered([]) by { EmptyOrdered(); }
    } else {
      var rest, last := entries[..|entries| - 1], entries[|entries| - 1];
      assert entries == rest + [last];
      ObjectHolds(render, rest);
      var key, val := JsonKey(render, last.key), ToJson(render, last.val);
      InsertOrdered(ObjectOf(render, rest), key, val);
      forall m
        ensures m in ObjectOf(render, entries) <==> FromEntry(render, entries, m)
      {
        MemberOfMore(render, rest, last, m);
      }
    }
  }

  /** Entry `i` is the last whose key renders as the member's, and the member renders it. */
  ghost predicate RenderedBy(render: Render, entries: seq<Entry>, m: Member, i: nat) {
    && i < |entries| && IsMemberOf(render, entries[i], m)
    && forall j | i < j < |entries| :: JsonKey(render, entries[j].key) != m.key
  }

  ghost predicate Rendered(render: Render, entries: seq<Entry>, m: Member) {
    exists i: nat :: RenderedBy(render, entries, m, i)
  }

  lemma RenderedMore(render: Render, rest: seq<Entry>, last: Entry, m: Member)
    ensures Rendered(render, rest + [last], m)
            <==> if JsonKey(render, last.key) == m.key then IsMemberOf(render, last, m) else Rendered(render, rest, m)
  {
    hide ToJson, JsonKey;
    var all := rest + [last];
    assert all[|rest|] == last;
    if JsonKey(render, last.key) == m.key {
      if IsMemberOf(render, last, m) {
        assert RenderedBy(render, all, m, |rest|);
      }
    } else {
      if i: nat :| RenderedBy(render, rest, m, i) {
        assert RenderedBy(render, all, m, i);
      }
      if i: nat :| RenderedBy(render, all, m, i) {
        assert i < |rest|;
        assert forall j | i < j < |rest| :: all[j] == rest[j];
        assert RenderedBy(render, rest, m, i);
      }
    }
  }

  /** Whatever the keys of a map, its object is ordered, and holds for every rendered key the last entry of that key. */
  lemma {:induction false} ObjectKeepsLast(render: Render, entries: seq<Entry>)
    ensures Ordered(ObjectOf(render, entries))
    ensures forall m :: m in ObjectOf(render, entries) <==> Rendered(render, entries, m)
    decreases |entries|
  {
    hide ToJson, JsonKey, Insert, Ordered, RenderedBy;
    if |entries| == 0 {
      EmptyOrdered();
      NothingRendered(render);
      assert entries == [];
    } else {
      var last, rest := entries[|entries| - 1], entries[..|entries| - 1];
      assert entries == rest + [last];
      ObjectKeepsLast(render, rest);
      InsertOrdered(ObjectOf(render, rest), JsonKey(render, last.key), ToJson(render, last.val));
      forall m
        ensures m in ObjectOf(render, entries) <==> Rendered(render, entries, m)
      {
        RenderedMore(render, rest, last, m);
      }
    }
  }

  lemma NothingRendered(render: Render)
    ensures forall m :: !Rendered(render, [], m)
  {
  }

  /** What every value renders as, behind any tags: integers as numbers within -2^63 to 2^64 - 1 and as text beyond,
      floats that are not finite as null, byte strings in base64, a text key as it is and other keys as text. */
  lemma {:induction false} JsonForms(render: Render, tags: seq<U64>, v: Cbor, k: Cbor)
    requires !v.Tag?
    ensures var j := ToJson(render, Tagged(tags, v));
            match v
            case Null => j == JsonNull
            case Bool(b) => j == JsonBool(b)
            case Integer(n) =>
              if 0 <= n then j == JsonNumber(PosInt(n))
              else if -9_223_372_036_854_775_808 <= n then j == JsonNumber(NegInt(n))
              else j == JsonString(render.decimal(n))
            case Float(f) => j == if render.finite(f) then JsonNumber(Real(f)) else JsonNull
            case Text(s) => j == JsonString(s)
            case Blob(b) => j == JsonString(render.base64(b))
            case Array(items) =>
              && j.JsonArray? && |j.items| == |items|
              && forall i | 0 <= i < |items| :: j.items[i] == ToJson(render, items[i])
            case Map(entries) =>
              j.JsonObject? && Ordered(j.members) && forall m :: m in j.members <==> Rendered(render, entries, m)
    ensures JsonKey(render, k) == if k.Text? then k.s else render.keyText(k)
    decreases |tags|
  {
    hide Rendered, Ordered, ObjectOf;
    if |tags| > 0 {
      JsonForms(render, tags[1..], v, k);
    } else if v.Map? {
      ObjectKeepsLast(render, v.entries);
    }
  }

  lemma EmptyOrdered()
    ensures Ordered([])
  {
  }

  lemma MemberOfMore(render: Render, rest: seq<Entry>, last: Entry, m: Member)
    requires TextKeyed(rest + [last])
    ensures FromEntry(render, rest + [last], m)
            <==> IsMemberOf(render, last, m) || (FromEntry(render, rest, m) && m.key != JsonKey(render, last.key))
  {
    hide ToJson;
    var all := rest + [last];
    assert last in all;
    if FromEntry(render, rest, m) {
      var e :| e in rest && IsMemberOf(render, e, m);
      assert e in all;
    }
  }

  lemma {:induction false} OrderedUnique(a: seq<Member>, b: seq<Member>)
    requires Ordered(a) && Ordered(b) && forall m :: m in a <==> m in b
    ensures a == b
    decreases |a| + |b|
  {
    hide Before;
    if |a| > 0 {
      HeadBelow(b, a[0]);
    }
    if |b| > 0 {
      HeadBelow(a, b[0]);
    }
    if |a| > 0 && |b| > 0 {
      BeforeTotal(a[0].key, b[0].key);
      SameKeySame(a, b[0]);
      TailMembers(a);
      TailMembers(b);
      OrderedUnique(a[1..], b[1..]);
    }
  }

  lemma HeadBelow(members: seq<Member>, m: Member)
    requires Ordered(members) && m in members
    ensures |members| > 0 && (members[0] == m || Before(members[0].key, m.key))
  {
  }

  lemma SameKeySame(members: seq<Member>, m: Member)
    requires Ordered(members) && m in members && members[0].key == m.key
    ensures members[0] == m
  {
  }

  lemma TailMembers(members: seq<Member>)
    requires Ordered(members) && |members| > 0
    ensures forall m :: m in members[1..] <==> m in members && m != members[0]
  {
    forall i | 0 < i < |members|
      ensures members[i] != members[0]
    {
      assert Before(members[0].key, members[i].key);
    }
    assert members == [members[0]] + members[1..];
  }

  // ---- The round trip ----

  /** JSON turned into CBOR, ordered canonically in either mode, and rendered again is the same tree. */
  lemma {:induction false} JsonRoundTrip(render: Render, j: Json, mode: Canon)
    requires Parsed(render, j)
    ensures ToJson(render, Canonicalize(ToCbor(j), mode)) == j
    decreases j, 1
  {
    hide ToJson, ToCbor, Canonicalize, SortEntries, ObjectOf, Ordered;
    if j.JsonArray? {
      forall x | x in j.items
        ensures ToJson(render, Canonicalize(ToCbor(x), mode)) == x
      {
        JsonRoundTrip(render, x, mode);
      }
      ArrayRoundTrip(render, j.items, mode);
    } else if j.JsonObject? {
      forall m | m in j.members
        ensures ToJson(render, Canonicalize(ToCbor(m.val), mode)) == m.val
      {
        assert ParsedMember(render, m) && m.val < m;
        JsonRoundTrip(render, m.val, mode);
      }
      ObjectRoundTrip(render, j.members, mode);
    } else {
      LeafRoundTrip(render, j, mode);
    }
  }

  lemma LeafRoundTrip(render: Render, j: Json, mode: Canon)
    requires Parsed(render, j) && !j.JsonArray? && !j.JsonObject?
    ensures ToJson(render, Canonicalize(ToCbor(j), mode)) == j
  {
  }

  lemma ArrayRoundTrip(render: Render, items: seq<Json>, mode: Canon)
    requires forall x | x in items :: ToJson(render, Canonicalize(ToCbor(x), mode)) == x
    ensures ToJson(render, Canonicalize(ToCbor(JsonArray(items)), mode)) == JsonArray(items)
  {
    hide AllToJson, AllToCbor, CanonAll;
    assert AllToJson(render, CanonAll(AllToCbor(items), mode)) == items;
  }

  lemma ObjectRoundTrip(render: Render, members: seq<Member>, mode: Canon)
    requires Ordered(members)
    requires forall m | m in members :: ToJson(render, Canonicalize(ToCbor(m.val), mode)) == m.val
    ensures ToJson(render, Canonicalize(ToCbor(JsonObject(members)), mode)) == JsonObject(members)
  {
    hide SortEntries, CanonEntries, MembersToCbor, ObjectOf, Ordered;
    ObjectFromEntries(render, members, mode);
  }

  lemma ObjectFromEntries(render: Render, members: seq<Member>, mode: Canon)
    requires Ordered(members)
    requires forall m | m in members :: ToJson(render, Canonicalize(ToCbor(m.val), mode)) == m.val
    ensures ObjectOf(render, SortEntries(mode, CanonEntries(MembersToCbor(members), mode))) == members
  {
    hide ToJson, ToCbor, Canonicalize, SortEntries, ObjectOf, Ordered;
    var entries := CanonEntries(MembersToCbor(members), mode);
    var sorted := SortEntries(mode, entries);
    SameMembers(sorted, entries);
    forall i | 0 <= i < |members|
      ensures entries[i].key == Text(members[i].key) && IsMemberOf(render, entries[i], members[i])
    {
      MemberEntry(members, i, mode);
      assert members[i] in members;
    }
    EntriesKeyed(members, entries);
    assert TextKeyed(sorted);
    ObjectHolds(render, sorted);
    forall m
      ensures FromEntry(render, sorted, m) <==> m in members
    {
      SameFromEntry(render, members, entries, sorted, m);
    }
    OrderedUnique(ObjectOf(render, sorted), members);
  }

  lemma MemberEntry(members: seq<Member>, i: nat, mode: Canon)
    requires i < |members|
    ensures CanonEntries(MembersToCbor(members), mode)[i]
            == Entry(Text(members[i].key), Canonicalize(ToCbor(members[i].val), mode))
  {
    hide ToCbor;
    assert Canonicalize(Text(members[i].key), mode) == Text(members[i].key);
  }

  lemma EntriesKeyed(members: seq<Member>, entries: seq<Entry>)
    requires Ordered(members) && |entries| == |members|
    requires forall i | 0 <= i < |members| :: entries[i].key == Text(members[i].key)
    ensures TextKeyed(entries)
  {
  }

  lemma SameFromEntry(render: Render, members: seq<Member>, entries: seq<Entry>, sorted: seq<Entry>, m: Member)
    requires |entries| == |members| && forall e :: e in sorted <==> e in entries
    requires forall i | 0 <= i < |members| :: IsMemberOf(render, entries[i], members[i])
    ensures FromEntry(render, sorted, m) <==> m in members
  {
    hide IsMemberOf;
    if FromEntry(render, sorted, m) {
      var e :| e in sorted && IsMemberOf(render, e, m);
      var i :| 0 <= i < |entries| && entries[i] == e;
      SameMemberOf(render, e, m, members[i]);
    }
    if m in members {
      var i :| 0 <= i < |members| && members[i] == m;
      assert entries[i] in sorted;
    }
  }

  lemma SameMemberOf(render: Render, e: Entry, x: Member, y: Member)
    requires IsMemberOf(render, e, x) && IsMemberOf(render, e, y)
    ensures x == y
  {
  }

  /** `from_json_str` on a parsed tree: core-deterministic CBOR. */
  function FromJson(j: Json): Bytes {
    Encode(Canonicalize(ToCbor(j), Core))
  }

  /** The bytes are one item, which renders as the tree again, whenever the tree is nested within the decoders' limit;
      so no two such trees share bytes. */
  lemma JsonBytesRoundTrip(render: Render, j: Json)
    requires Parsed(render, j) && Within(MAX_NESTING, ToCbor(j))
    ensures var r := ParseStrict(FromJson(j));
            r.Whole? && ToJson(render, r.v) == j
  {
    hide ToJson, ToCbor, Canonicalize, Encode, Parse, Addressable, Depth;
    JsonRoundTrip(render, j, Core);
    CanonKeeps(ToCbor(j), Core);
    StrictOfEncode(Canonicalize(ToCbor(j), Core));
  }
}
